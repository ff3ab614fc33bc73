/** Tagging a pic (be/tasks/add_pic_tags_task.go) on the tag tables of one transaction. */
module Tags {
  import opened Lists
  import opened Prelude

  datatype Tag = Tag(name: string, usage: int)

  /** A row as a find returns it: a copy. */
  datatype TagRow = TagRow(id: int64, tag: Tag)

  datatype PicTag = PicTag(picId: int64, tagId: int64)

  datatype TagName = TagName(name: string, orig: string, uniq: string)

  /** The text rules: cleaning and checking a name given by a user, and `TagUniqueName`. */
  datatype Rules = Rules(clean: string -> Option<string>, uniq: string -> string)

  datatype TagError = BadName | DuplicateName | CantLookupTag | NoId | DuplicateTag | TagMissing | FalseDuplicate

  // The invariant of the tag tables

  /** How many pic tags point at the tag. */
  function Uses(picTags: set<PicTag>, id: int64): nat {
    |set pt | pt in picTags && pt.tagId == id|
  }

  /** The unique index on names holds each tag under its unique name and nothing else. */
  ghost predicate Indexed(tags: map<int64, Tag>, byName: map<string, int64>, rules: Rules) {
    && (forall u :: u in byName ==> byName[u] in tags && rules.uniq(tags[byName[u]].name) == u)
    && (forall id :: id in tags ==> rules.uniq(tags[id].name) in byName && byName[rules.uniq(tags[id].name)] == id)
  }

  /** Usage counts are right, and at least one; no pic tag dangles. */
  ghost predicate Counted(tags: map<int64, Tag>, picTags: set<PicTag>) {
    && (forall id :: id in tags ==> tags[id].usage == Uses(picTags, id) && tags[id].usage >= 1)
    && (forall pt :: pt in picTags ==> pt.tagId in tags)
  }

  lemma UsesInsert(picTags: set<PicTag>, pt: PicTag, id: int64)
    requires pt !in picTags
    ensures Uses(picTags + {pt}, id) == Uses(picTags, id) + if pt.tagId == id then 1 else 0
  {
    var was := set q | q in picTags && q.tagId == id;
    var now := set q | q in picTags + {pt} && q.tagId == id;
    assert now == if pt.tagId == id then was + {pt} else was;
  }

  class Job {
    var tags: map<int64, Tag>
    var byName: map<string, int64>
    var picTags: set<PicTag>
    /** The ids that the allocator will give out. */
    var supply: seq<int64>
    const rules: Rules

    constructor (tags: map<int64, Tag>, byName: map<string, int64>, picTags: set<PicTag>, supply: seq<int64>,
                 rules: Rules)
      ensures this.tags == tags && this.byName == byName && this.picTags == picTags
      ensures this.supply == supply && this.rules == rules
    {
      this.tags, this.byName, this.picTags, this.supply, this.rules := tags, byName, picTags, supply, rules;
    }

    ghost predicate Valid()
      reads this
    {
      && Indexed(tags, byName, rules) && Counted(tags, picTags) && FreshSupply(tags, supply)
    }
  }

  /** New ids are new. */
  ghost predicate FreshSupply(tags: map<int64, Tag>, supply: seq<int64>) {
    && (forall i :: 0 <= i < |supply| ==> supply[i] !in tags)
    && (forall i, j :: 0 <= i < j < |supply| ==> supply[i] != supply[j])
  }

  // The helpers of `upsertTags`

  predicate DistinctNames(names: seq<TagName>) {
    forall i, j :: 0 <= i < j < |names| ==> names[i].uniq != names[j].uniq
  }

  predicate Cleaned(raw: seq<string>, names: seq<TagName>, rules: Rules) {
    |names| == |raw|
    && forall i :: 0 <= i < |raw| ==>
         rules.clean(raw[i]).Some?
         && names[i] == TagName(rules.clean(raw[i]).value, raw[i], rules.uniq(rules.clean(raw[i]).value))
  }

  method CleanTagNames(raw: seq<string>, rules: Rules) returns (r: Result<seq<TagName>, TagError>)
    ensures r == Err(BadName) <==> exists i :: 0 <= i < |raw| && rules.clean(raw[i]) == None
    ensures r.Ok? ==> Cleaned(raw, r.value, rules) && DistinctNames(r.value)
    ensures r.Err? && r.error != BadName ==>
              r.error == DuplicateName && exists names :: Cleaned(raw, names, rules) && !DistinctNames(names)
  {
    var names: seq<TagName> := [];
    for i := 0 to |raw|
      invariant Cleaned(raw[..i], names, rules)
    {
      var name := rules.clean(raw[i]);
      if name == None {
        return Err(BadName);
      }
      names := names + [TagName(name.value, raw[i], rules.uniq(name.value))];
    }
    assert raw[..|raw|] == raw;
    var duplicate := HasDuplicate(names);
    if duplicate {
      return Err(DuplicateName);
    }
    return Ok(names);
  }

  /** `validateNoDuplicateTags`. */
  method HasDuplicate(names: seq<TagName>) returns (duplicate: bool)
    ensures duplicate <==> !DistinctNames(names)
  {
    var seen: map<string, nat> := map[];
    for i := 0 to |names|
      invariant forall u :: u in seen ==> seen[u] < i && names[seen[u]].uniq == u
      invariant forall k :: 0 <= k < i ==> names[k].uniq in seen
      invariant DistinctNames(names[..i])
    {
      if names[i].uniq in seen {
        assert names[seen[names[i].uniq]].uniq == names[i].uniq;
        return true;
      }
      seen := seen[names[i].uniq := i];
    }
    assert names[..|names|] == names;
    return false;
  }

  predicate RowsOf(rows: seq<TagRow>, tags: map<int64, Tag>) {
    && (forall i :: 0 <= i < |rows| ==> rows[i].id in tags && rows[i].tag == tags[rows[i].id])
    && (forall i, j :: 0 <= i < j < |rows| ==> rows[i].id != rows[j].id)
  }

  predicate HasRow(rows: seq<TagRow>, id: int64) {
    exists i :: 0 <= i < |rows| && rows[i].id == id
  }

  /** `findAttachedPicTags`: the tags of the pic. */
  method FindAttached(j: Job, picId: int64) returns (r: Result<seq<TagRow>, TagError>)
    requires forall pt :: pt in j.picTags ==> pt.tagId in j.tags
    ensures r.Ok? && RowsOf(r.value, j.tags)
    ensures forall id :: HasRow(r.value, id) <==> PicTag(picId, id) in j.picTags
  {
    var pts := set pt | pt in j.picTags && pt.picId == picId;
    var rows: seq<TagRow> := [];
    var rest := pts;
    while rest != {}
      invariant rest <= pts
      invariant RowsOf(rows, j.tags)
      invariant forall id :: HasRow(rows, id) <==> PicTag(picId, id) in pts - rest
      decreases |rest|
    {
      var pt :| pt in rest;
      if pt.tagId !in j.tags {
        return Err(CantLookupTag);
      }
      assert !HasRow(rows, pt.tagId) by { assert PicTag(picId, pt.tagId) == pt; }
      ghost var before := rows;
      rows := rows + [TagRow(pt.tagId, j.tags[pt.tagId])];
      rest := rest - {pt};
      RowAdded(before, TagRow(pt.tagId, j.tags[pt.tagId]));
    }
    return Ok(rows);
  }

  lemma RowAdded(rows: seq<TagRow>, row: TagRow)
    ensures forall id :: HasRow(rows + [row], id) <==> HasRow(rows, id) || id == row.id
  {
    forall id ensures HasRow(rows + [row], id) <==> HasRow(rows, id) || id == row.id {
      assert (rows + [row])[|rows|] == row;
      if HasRow(rows, id) { var i :| 0 <= i < |rows| && rows[i].id == id; assert (rows + [row])[i].id == id; }
    }
  }

  /** The names whose unique form is not among the given ones. */
  function Without(have: set<string>): TagName -> bool { (n: TagName) => n.uniq !in have }

  function Unattached(names: seq<TagName>, have: set<string>): (r: seq<TagName>)
    ensures forall n :: n in r <==> n in names && n.uniq !in have
  {
    UnattachedMembers(names, have);
    Select(names, Without(have))
  }

  lemma UnattachedMembers(names: seq<TagName>, have: set<string>)
    ensures forall n :: n in Select(names, Without(have)) <==> n in names && n.uniq !in have
  {
    forall n ensures n in Select(names, Without(have)) <==> n in names && n.uniq !in have {
      SelectMembers(names, Without(have), n);
    }
  }

  lemma {:induction false} UnattachedDistinct(names: seq<TagName>, have: set<string>)
    requires DistinctNames(names)
    ensures DistinctNames(Unattached(names, have))
  {
    if names != [] {
      var n := |names| - 1;
      UnattachedDistinct(names[..n], have);
      var front := Unattached(names[..n], have);
      forall i | 0 <= i < |front| ensures front[i].uniq != names[n].uniq {
        assert front[i] in names[..n];
      }
    }
  }

  /** The unique names of some tags. */
  function UniqNames(rows: seq<TagRow>, rules: Rules): set<string> {
    set i | 0 <= i < |rows| :: rules.uniq(rows[i].tag.name)
  }

  /** `findUnattachedTagNames`. */
  method FindUnattached(attached: seq<TagRow>, names: seq<TagName>, rules: Rules) returns (r: seq<TagName>)
    ensures r == Unattached(names, UniqNames(attached, rules))
  {
    var have: set<string> := {};
    for i := 0 to |attached|
      invariant have == UniqNames(attached[..i], rules)
    {
      UniqNamesMore(attached[..i], attached[i], rules);
      assert attached[..i + 1] == attached[..i] + [attached[i]];
      have := have + {rules.uniq(attached[i].tag.name)};
    }
    assert attached[..|attached|] == attached;
    r := [];
    for i := 0 to |names|
      invariant r == Unattached(names[..i], have)
    {
      assert names[..i + 1][..i] == names[..i];
      if names[i].uniq !in have {
        r := r + [names[i]];
      }
    }
    assert names[..|names|] == names;
  }

  lemma UniqNamesMore(rows: seq<TagRow>, row: TagRow, rules: Rules)
    ensures UniqNames(rows + [row], rules) == UniqNames(rows, rules) + {rules.uniq(row.tag.name)}
  {
    var all := rows + [row];
    forall u | u in UniqNames(rows, rules) + {rules.uniq(row.tag.name)} ensures u in UniqNames(all, rules) {
      if u in UniqNames(rows, rules) {
        var i :| 0 <= i < |rows| && u == rules.uniq(rows[i].tag.name);
        assert all[i] == rows[i];
      } else {
        assert all[|rows|] == row;
      }
    }
  }

  predicate Named(names: seq<TagName>, u: string) {
    exists i :: 0 <= i < |names| && names[i].uniq == u
  }

  lemma NamedMore(names: seq<TagName>, name: TagName)
    ensures forall u :: Named(names + [name], u) <==> Named(names, u) || u == name.uniq
  {
    forall u ensures Named(names + [name], u) <==> Named(names, u) || u == name.uniq {
      assert (names + [name])[|names|] == name;
      if Named(names, u) { var i :| 0 <= i < |names| && names[i].uniq == u; assert (names + [name])[i].uniq == u; }
    }
  }

  /** The rows are the tags that have one of the names. */
  ghost predicate Covers(rows: seq<TagRow>, names: seq<TagName>, tags: map<int64, Tag>, rules: Rules) {
    RowsOf(rows, tags)
    && forall id :: HasRow(rows, id) <==> id in tags && Named(names, rules.uniq(tags[id].name))
  }

  lemma CoversMore(rows: seq<TagRow>, names: seq<TagName>, name: TagName, tags: map<int64, Tag>,
                   byName: map<string, int64>, rules: Rules)
    requires Indexed(tags, byName, rules) && Covers(rows, names, tags, rules) && !Named(names, name.uniq)
    ensures if name.uniq in byName
            then Covers(rows + [TagRow(byName[name.uniq], tags[byName[name.uniq]])], names + [name], tags, rules)
            else Covers(rows, names + [name], tags, rules)
  {
    hide Named, HasRow;
    NamedMore(names, name);
    if name.uniq in byName {
      var row := TagRow(byName[name.uniq], tags[byName[name.uniq]]);
      RowAdded(rows, row);
      RowIsThere(rows);
    }
  }

  lemma IndexedTag(tags: map<int64, Tag>, byName: map<string, int64>, rules: Rules, u: string)
    requires Indexed(tags, byName, rules) && u in byName
    ensures byName[u] in tags
  {
  }

  lemma UnattachedMore(names: seq<TagName>, name: TagName, have: set<string>)
    ensures Unattached(names + [name], have) == Unattached(names, have) + if name.uniq in have then [] else [name]
  {
    assert (names + [name])[..|names|] == names;
  }

  lemma RowIsThere(rows: seq<TagRow>)
    ensures forall i :: 0 <= i < |rows| ==> HasRow(rows, rows[i].id)
  {
  }

  lemma NotYetNamed(names: seq<TagName>, i: nat)
    requires DistinctNames(names) && i < |names|
    ensures !Named(names[..i], names[i].uniq)
  {
  }

  lemma NothingToFind(tags: map<int64, Tag>, byName: map<string, int64>, rules: Rules)
    ensures Covers([], [], tags, rules) && Unattached([], byName.Keys) == []
  {
  }

  /** `findExistingTagsByName`: the tags that have one of the names, and the names no tag has. */
  method FindExisting(j: Job, names: seq<TagName>) returns (rows: seq<TagRow>, unknown: seq<TagName>)
    requires Indexed(j.tags, j.byName, j.rules) && DistinctNames(names)
    ensures Covers(rows, names, j.tags, j.rules)
    ensures unknown == Unattached(names, j.byName.Keys)
  {
    hide Covers, DistinctNames, Indexed, Unattached;
    rows, unknown := [], [];
    NothingToFind(j.tags, j.byName, j.rules);
    for i := 0 to |names|
      invariant Covers(rows, names[..i], j.tags, j.rules)
      invariant unknown == Unattached(names[..i], j.byName.Keys)
    {
      var name := names[i];
      NotYetNamed(names, i);
      assert names[..i + 1] == names[..i] + [name];
      UnattachedMore(names[..i], name, j.byName.Keys);
      CoversMore(rows, names[..i], name, j.tags, j.byName, j.rules);
      if name.uniq in j.byName {
        var id := j.byName[name.uniq];
        IndexedTag(j.tags, j.byName, j.rules, name.uniq);
        rows := rows + [TagRow(id, j.tags[id])];
      } else {
        unknown := unknown + [name];
      }
    }
    assert names[..|names|] == names;
  }

  // The writes of `upsertTags`

  function Plus(tag: Tag): Tag { tag.(usage := tag.usage + 1) }

  /** The tags after those of the rows have been used once more. */
  function Bumped(tags: map<int64, Tag>, rows: seq<TagRow>): map<int64, Tag> {
    map id | id in tags :: if HasRow(rows, id) then Plus(tags[id]) else tags[id]
  }

  /** `updateExistingTags`. */
  method UpdateExisting(j: Job, rows: seq<TagRow>) returns (r: seq<TagRow>)
    requires RowsOf(rows, j.tags)
    modifies j`tags
    ensures j.tags == Bumped(old(j.tags), rows)
    ensures |r| == |rows| && forall i :: 0 <= i < |rows| ==> r[i] == TagRow(rows[i].id, Plus(rows[i].tag))
  {
    r := [];
    for i := 0 to |rows|
      invariant j.tags == Bumped(old(j.tags), rows[..i])
      invariant |r| == i && forall k :: 0 <= k < i ==> r[k] == TagRow(rows[k].id, Plus(rows[k].tag))
    {
      var tag := Plus(rows[i].tag);
      assert rows[..i + 1] == rows[..i] + [rows[i]];
      RowAdded(rows[..i], rows[i]);
      assert !HasRow(rows[..i], rows[i].id);
      j.tags := j.tags[rows[i].id := tag];
      r := r + [TagRow(rows[i].id, tag)];
    }
    assert rows[..|rows|] == rows;
  }

  function NewRows(names: seq<TagName>, supply: seq<int64>): seq<TagRow>
    requires |names| <= |supply|
  {
    seq(|names|, i requires 0 <= i < |names| => TagRow(supply[i], Tag(names[i].name, 1)))
  }

  /** The tags after new ones were added. */
  ghost predicate Extended(tags: map<int64, Tag>, rows: seq<TagRow>, tags': map<int64, Tag>) {
    RowsOf(rows, tags')
    && (forall id :: id in tags ==> id in tags' && tags'[id] == tags[id] && !HasRow(rows, id))
    && (forall id :: id in tags' ==> id in tags || HasRow(rows, id))
  }

  lemma IndexedMore(tags: map<int64, Tag>, byName: map<string, int64>, rules: Rules, id: int64, tag: Tag)
    requires Indexed(tags, byName, rules) && id !in tags && rules.uniq(tag.name) !in byName
    ensures Indexed(tags[id := tag], byName[rules.uniq(tag.name) := id], rules)
  {
  }

  lemma ExtendedMore(tags0: map<int64, Tag>, rows: seq<TagRow>, tags: map<int64, Tag>, row: TagRow)
    requires Extended(tags0, rows, tags) && row.id !in tags
    ensures Extended(tags0, rows + [row], tags[row.id := row.tag])
  {
    RowAdded(rows, row);
    RowIsThere(rows);
    hide HasRow;
  }

  /** The next id of the supply is not that of a tag made from the ids before it. */
  lemma NextIsFresh(tags0: map<int64, Tag>, names: seq<TagName>, supply: seq<int64>, tags: map<int64, Tag>)
    requires FreshSupply(tags0, supply) && |names| < |supply|
    requires Extended(tags0, NewRows(names, supply), tags)
    ensures supply[|names|] !in tags
  {
  }

  lemma NewRowsMore(names: seq<TagName>, name: TagName, supply: seq<int64>)
    requires |names| < |supply|
    ensures NewRows(names + [name], supply) == NewRows(names, supply) + [TagRow(supply[|names|], Tag(name.name, 1))]
  {
  }

  /** `createNewTags`: each name gets a tag with a new id, used once. */
  method CreateNew(j: Job, names: seq<TagName>) returns (r: Result<seq<TagRow>, TagError>)
    requires Indexed(j.tags, j.byName, j.rules) && FreshSupply(j.tags, j.supply) && DistinctNames(names)
    requires forall i :: 0 <= i < |names| ==> names[i].uniq == j.rules.uniq(names[i].name) && names[i].uniq !in j.byName
    modifies j`tags, j`byName, j`supply
    ensures r.Ok? <==> |names| <= |old(j.supply)|
    ensures r.Err? ==> r.error == NoId
    ensures r.Ok? ==> r.value == NewRows(names, old(j.supply)) && j.supply == old(j.supply)[|names|..]
    ensures r.Ok? ==> Indexed(j.tags, j.byName, j.rules)
    ensures r.Ok? ==> Extended(old(j.tags), r.value, j.tags)
    ensures r.Ok? ==> forall u :: u in j.byName <==> u in old(j.byName) || Named(names, u)
  {
    hide Indexed, Extended, NewRows, FreshSupply, Named;
    var rows: seq<TagRow> := [];
    NothingNew(j.tags, j.supply);
    for i := 0 to |names|
      invariant i <= |old(j.supply)| && j.supply == old(j.supply)[i..]
      invariant rows == NewRows(names[..i], old(j.supply))
      invariant Indexed(j.tags, j.byName, j.rules)
      invariant Extended(old(j.tags), rows, j.tags)
      invariant forall u :: u in j.byName <==> u in old(j.byName) || Named(names[..i], u)
    {
      if |j.supply| == 0 {
        return Err(NoId);
      }
      var id, name := j.supply[0], names[i];
      assert names[..i + 1] == names[..i] + [name];
      NextIsFresh(old(j.tags), names[..i], old(j.supply), j.tags);
      NotYetNamed(names, i);
      NewRowsMore(names[..i], name, old(j.supply));
      NamedMore(names[..i], name);
      ExtendedMore(old(j.tags), rows, j.tags, TagRow(id, Tag(name.name, 1)));
      IndexedMore(j.tags, j.byName, j.rules, id, Tag(name.name, 1));
      j.supply := j.supply[1..];
      j.tags := j.tags[id := Tag(name.name, 1)];
      j.byName := j.byName[name.uniq := id];
      rows := rows + [TagRow(id, Tag(name.name, 1))];
    }
    assert names[..|names|] == names;
    return Ok(rows);
  }

  lemma NothingNew(tags: map<int64, Tag>, supply: seq<int64>)
    ensures NewRows([], supply) == [] && Extended(tags, [], tags) && forall u :: !Named([], u)
  {
  }

  function Tagged(picTags: set<PicTag>, rows: seq<TagRow>, picId: int64): set<PicTag> {
    picTags + set i | 0 <= i < |rows| :: PicTag(picId, rows[i].id)
  }

  /** `createPicTags`, where an insert of a row that is there already would fail. */
  method CreatePicTags(j: Job, rows: seq<TagRow>, picId: int64)
    requires forall i :: 0 <= i < |rows| ==> PicTag(picId, rows[i].id) !in j.picTags
    requires forall i, k :: 0 <= i < k < |rows| ==> rows[i].id != rows[k].id
    modifies j`picTags
    ensures j.picTags == Tagged(old(j.picTags), rows, picId)
  {
    for i := 0 to |rows|
      invariant j.picTags == Tagged(old(j.picTags), rows[..i], picId)
    {
      assert PicTag(picId, rows[i].id) !in j.picTags;
      TaggedMore(old(j.picTags), rows[..i], rows[i], picId);
      assert rows[..i + 1] == rows[..i] + [rows[i]];
      j.picTags := j.picTags + {PicTag(picId, rows[i].id)};
    }
    assert rows[..|rows|] == rows;
  }

  lemma TaggedMore(picTags: set<PicTag>, rows: seq<TagRow>, row: TagRow, picId: int64)
    ensures Tagged(picTags, rows + [row], picId) == Tagged(picTags, rows, picId) + {PicTag(picId, row.id)}
  {
    var all := rows + [row];
    forall pt | pt in Tagged(picTags, rows, picId) + {PicTag(picId, row.id)} ensures pt in Tagged(picTags, all, picId) {
      if pt == PicTag(picId, row.id) {
        assert all[|rows|] == row;
      } else if pt !in picTags {
        var i :| 0 <= i < |rows| && pt == PicTag(picId, rows[i].id);
        assert all[i] == rows[i];
      }
    }
  }

  // The result

  predicate DistinctRows(rows: seq<TagRow>, rules: Rules) {
    forall i, k :: 0 <= i < k < |rows| ==> rules.uniq(rows[i].tag.name) != rules.uniq(rows[k].tag.name)
  }

  /** The ids of some tags by unique name. */
  ghost predicate IsTagMap(m: map<string, int64>, rows: seq<TagRow>, rules: Rules) {
    && m.Keys == UniqNames(rows, rules)
    && forall i :: 0 <= i < |rows| ==> rules.uniq(rows[i].tag.name) in m && m[rules.uniq(rows[i].tag.name)] == rows[i].id
  }

  /** A name given earlier is, letter for letter, the unique form of one given later. */
  predicate Confused(names: seq<TagName>) {
    exists i, k :: 0 <= i < k < |names| && names[i].orig == names[k].uniq
  }

  /** The answer: each name as it was given, and the id of the tag that has its unique form. */
  ghost predicate IsNameMap(m: map<string, int64>, names: seq<TagName>, tagMap: map<string, int64>) {
    && (forall o :: o in m <==> exists i :: 0 <= i < |names| && names[i].orig == o)
    && forall i :: 0 <= i < |names| ==>
         names[i].orig in m && names[i].uniq in tagMap && m[names[i].orig] == tagMap[names[i].uniq]
  }

  /** A loop of `buildTagIdList` that enters tags into the map; false is the return on a duplicate. */
  method EnterTags(m: map<string, int64>, before: seq<TagRow>, rows: seq<TagRow>, rules: Rules)
    returns (ok: bool, m': map<string, int64>)
    requires IsTagMap(m, before, rules) && DistinctRows(before, rules)
    ensures ok <==> DistinctRows(before + rows, rules)
    ensures ok ==> IsTagMap(m', before + rows, rules)
  {
    hide DistinctRows;
    m' := m;
    assert before + rows[..0] == before;
    for i := 0 to |rows|
      invariant IsTagMap(m', before + rows[..i], rules) && DistinctRows(before + rows[..i], rules)
    {
      var u := rules.uniq(rows[i].tag.name);
      ghost var so := before + rows[..i];
      assert before + rows[..i + 1] == so + [rows[i]];
      UniqNamesMore(so, rows[i], rules);
      if u in m' {
        NotDistinct(so, rows[i], rows[i + 1..], rules);
        assert so + [rows[i]] + rows[i + 1..] == before + rows;
        return false, m';
      }
      StillDistinct(so, rows[i], rules);
      m' := m'[u := rows[i].id];
    }
    assert rows[..|rows|] == rows;
    return true, m';
  }

  lemma NotDistinct(a: seq<TagRow>, row: TagRow, b: seq<TagRow>, rules: Rules)
    requires rules.uniq(row.tag.name) in UniqNames(a, rules)
    ensures !DistinctRows(a + [row] + b, rules)
  {
    var i :| 0 <= i < |a| && rules.uniq(row.tag.name) == rules.uniq(a[i].tag.name);
    assert (a + [row] + b)[i] == a[i] && (a + [row] + b)[|a|] == row;
  }

  lemma StillDistinct(a: seq<TagRow>, row: TagRow, rules: Rules)
    requires DistinctRows(a, rules) && rules.uniq(row.tag.name) !in UniqNames(a, rules)
    ensures DistinctRows(a + [row], rules)
  {
    assert forall i :: 0 <= i < |a| ==> rules.uniq(a[i].tag.name) in UniqNames(a, rules);
  }

  predicate Given(names: seq<TagName>, o: string) {
    exists i :: 0 <= i < |names| && names[i].orig == o
  }

  lemma NameMapMore(m: map<string, int64>, names: seq<TagName>, name: TagName, tagMap: map<string, int64>)
    requires IsNameMap(m, names, tagMap) && name.uniq in tagMap && !Given(names, name.orig)
    ensures IsNameMap(m[name.orig := tagMap[name.uniq]], names + [name], tagMap)
  {
    var m' := m[name.orig := tagMap[name.uniq]];
    forall o ensures o in m' <==> Given(names + [name], o) {
      assert (names + [name])[|names|] == name;
      if Given(names, o) { var i :| 0 <= i < |names| && names[i].orig == o; assert (names + [name])[i].orig == o; }
    }
  }

  lemma ConfusedAt(names: seq<TagName>, i: nat)
    requires i < |names| && !Confused(names[..i])
    ensures Confused(names[..i + 1]) <==> Given(names[..i], names[i].uniq)
    ensures Confused(names[..i + 1]) ==> Confused(names)
  {
    if Given(names[..i], names[i].uniq) {
      var k :| 0 <= k < i && names[..i][k].orig == names[i].uniq;
      assert names[..i + 1][k].orig == names[..i + 1][i].uniq && names[k].orig == names[i].uniq;
    }
    if Confused(names[..i + 1]) {
      var k, l :| 0 <= k < l < i + 1 && names[..i + 1][k].orig == names[..i + 1][l].uniq;
      assert l == i;
      assert names[..i][k].orig == names[i].uniq && names[k].orig == names[i].uniq;
    }
  }

  lemma NotGivenBefore(names: seq<TagName>, i: nat)
    requires i < |names| && forall k, l :: 0 <= k < l < |names| ==> names[k].orig != names[l].orig
    ensures !Given(names[..i], names[i].orig)
  {
  }

  /** The last loop of `buildTagIdList`, when every name has its tag. The test for a duplicate looks up the
      unique form among the names as given, so it can mistake one name for another. */
  method NameIds(names: seq<TagName>, tagMap: map<string, int64>) returns (r: Result<map<string, int64>, TagError>)
    requires forall i, k :: 0 <= i < k < |names| ==> names[i].orig != names[k].orig
    ensures (exists i :: 0 <= i < |names| && names[i].uniq !in tagMap) ==> r.Err?
    ensures (forall i :: 0 <= i < |names| ==> names[i].uniq in tagMap) ==>
              (r == Err(FalseDuplicate) <==> Confused(names)) && (r.Err? ==> r.error == FalseDuplicate)
    ensures r.Ok? ==> IsNameMap(r.value, names, tagMap)
  {
    hide Confused, Given;
    var m: map<string, int64> := map[];
    NoNames(tagMap);
    for i := 0 to |names|
      invariant IsNameMap(m, names[..i], tagMap)
      invariant forall o :: o in m <==> Given(names[..i], o)
      invariant !Confused(names[..i])
      invariant forall k :: 0 <= k < i ==> names[k].uniq in tagMap
    {
      hide IsNameMap;
      var name := names[i];
      assert names[..i + 1] == names[..i] + [name];
      ConfusedAt(names, i);
      NotGivenBefore(names, i);
      if name.uniq !in tagMap {
        return Err(TagMissing);
      }
      if name.uniq in m {
        return Err(FalseDuplicate);
      }
      NameMapMore(m, names[..i], name, tagMap);
      m := m[name.orig := tagMap[name.uniq]];
      KeysGiven(m, names[..i + 1], tagMap);
    }
    assert names[..|names|] == names;
    return Ok(m);
  }

  lemma KeysGiven(m: map<string, int64>, names: seq<TagName>, tagMap: map<string, int64>)
    requires IsNameMap(m, names, tagMap)
    ensures forall o :: o in m <==> Given(names, o)
  {
  }

  lemma NoNames(tagMap: map<string, int64>)
    ensures IsNameMap(map[], [], tagMap) && !Confused([]) && forall o :: !Given([], o)
  {
  }

  // `upsertTags`

  /** What a successful `upsertTags` does: the answer maps the names as given to tags of those names that are
      attached to the pic; tags newly attached are used once more, new tags once; nothing else changes. */
  ghost predicate Upserted(tags: map<int64, Tag>, picTags: set<PicTag>, tags': map<int64, Tag>, picTags': set<PicTag>,
                           picId: int64, names: seq<TagName>, answer: map<string, int64>, rules: Rules) {
    && (forall o :: o in answer <==> Given(names, o))
    && (forall i :: 0 <= i < |names| ==>
          names[i].orig in answer && answer[names[i].orig] in tags'
          && rules.uniq(tags'[answer[names[i].orig]].name) == names[i].uniq)
    && Attached(tags, picTags, tags', picTags', picId, answer.Values)
  }

  /** No other tag has the unique form of a name given. */
  ghost predicate Sole(tags: map<int64, Tag>, names: seq<TagName>, answer: map<string, int64>, rules: Rules) {
    forall i, id :: 0 <= i < |names| && id in tags && rules.uniq(tags[id].name) == names[i].uniq ==>
      names[i].orig in answer && answer[names[i].orig] == id
  }

  /** The tables after the tags with the given ids have been attached to a pic, where they were not already. */
  ghost predicate Attached(tags: map<int64, Tag>, picTags: set<PicTag>, tags': map<int64, Tag>, picTags': set<PicTag>,
                           picId: int64, ids: set<int64>) {
    && ids <= tags'.Keys
    && picTags' == picTags + (set id | id in ids :: PicTag(picId, id))
    && (forall id :: id in tags ==>
          id in tags' && tags'[id] == if id in ids && PicTag(picId, id) !in picTags then Plus(tags[id]) else tags[id])
    && (forall id :: id in tags' && id !in tags ==> id in ids && tags'[id].usage == 1)
  }

  /** How often a tag is used once tags have been attached to a pic. */
  lemma UsesAttached(picTags: set<PicTag>, picId: int64, ids: set<int64>, id: int64)
    ensures Uses(picTags + (set i | i in ids :: PicTag(picId, i)), id)
         == Uses(picTags, id) + if id in ids && PicTag(picId, id) !in picTags then 1 else 0
  {
    var was := set pt | pt in picTags && pt.tagId == id;
    var now := set pt | pt in picTags + (set i | i in ids :: PicTag(picId, i)) && pt.tagId == id;
    if id in ids && PicTag(picId, id) !in picTags {
      assert now == was + {PicTag(picId, id)};
    } else {
      assert now == was;
    }
  }

  lemma NotUsed(picTags: set<PicTag>, id: int64)
    requires forall pt :: pt in picTags ==> pt.tagId != id
    ensures Uses(picTags, id) == 0
  {
    assert (set pt | pt in picTags && pt.tagId == id) == {};
  }

  /** Attaching tags keeps the counts. */
  lemma AttachedKeepsCounts(tags: map<int64, Tag>, picTags: set<PicTag>, tags': map<int64, Tag>, picTags': set<PicTag>,
                            picId: int64, ids: set<int64>)
    requires Counted(tags, picTags) && Attached(tags, picTags, tags', picTags', picId, ids)
    ensures Counted(tags', picTags')
  {
    hide Uses;
    forall id | id in tags'
      ensures tags'[id].usage == Uses(picTags', id) && tags'[id].usage >= 1
    {
      UsesAttached(picTags, picId, ids, id);
      if id !in tags { NotUsed(picTags, id); }
    }
  }

  /** What the steps of `upsertTags` have collected before the answer is put together. */
  ghost predicate Collected(tags: map<int64, Tag>, picTags: set<PicTag>, picId: int64, names: seq<TagName>,
                            attached: seq<TagRow>, existing: seq<TagRow>, made: seq<TagRow>, unknown: seq<TagName>,
                            tags': map<int64, Tag>, rules: Rules) {
    && RowsOf(attached, tags) && (forall id :: HasRow(attached, id) <==> PicTag(picId, id) in picTags)
    && Covers(existing, Unattached(names, UniqNames(attached, rules)), tags, rules)
    && Extended(Bumped(tags, existing), made, tags')
    && |made| == |unknown| && (forall i :: 0 <= i < |made| ==> made[i].tag == Tag(unknown[i].name, 1))
    && (forall i :: 0 <= i < |unknown| ==> unknown[i] in names && rules.uniq(unknown[i].name) == unknown[i].uniq)
  }

  /** The tag a row is about, apart from its count. */
  ghost predicate AboutTags(rows: seq<TagRow>, tags: map<int64, Tag>) {
    forall i :: 0 <= i < |rows| ==> rows[i].id in tags && rows[i].tag.name == tags[rows[i].id].name
  }

  predicate DistinctRowIds(rows: seq<TagRow>) {
    forall i, k :: 0 <= i < k < |rows| ==> rows[i].id != rows[k].id
  }

  /** Different tags have different unique names. */
  lemma DistinctByIndex(rows: seq<TagRow>, tags: map<int64, Tag>, byName: map<string, int64>, rules: Rules)
    requires Indexed(tags, byName, rules) && AboutTags(rows, tags) && DistinctRowIds(rows)
    ensures DistinctRows(rows, rules)
  {
    forall i, k | 0 <= i < k < |rows| ensures rules.uniq(rows[i].tag.name) != rules.uniq(rows[k].tag.name) {
      assert byName[rules.uniq(tags[rows[i].id].name)] == rows[i].id;
      assert byName[rules.uniq(tags[rows[k].id].name)] == rows[k].id;
    }
  }

  lemma DistinctIdsConcat(a: seq<TagRow>, b: seq<TagRow>)
    requires DistinctRowIds(a) && DistinctRowIds(b) && forall id :: !(HasRow(a, id) && HasRow(b, id))
    ensures DistinctRowIds(a + b)
    ensures forall id :: HasRow(a + b, id) <==> HasRow(a, id) || HasRow(b, id)
  {
    RowIsThere(a);
    RowIsThere(b);
    forall i, k | 0 <= i < k < |a + b| ensures (a + b)[i].id != (a + b)[k].id {
      if i < |a| <= k { assert HasRow(a, a[i].id) && HasRow(b, b[k - |a|].id); }
    }
    forall id ensures HasRow(a + b, id) <==> HasRow(a, id) || HasRow(b, id) {
      if HasRow(a, id) { var i :| 0 <= i < |a| && a[i].id == id; assert (a + b)[i].id == id; }
      if HasRow(b, id) { var i :| 0 <= i < |b| && b[i].id == id; assert (a + b)[|a| + i].id == id; }
    }
  }

  /** An existing tag found under an unattached name is not attached to the pic. */
  lemma ExistingIsUnattached(attached: seq<TagRow>, existing: seq<TagRow>, names: seq<TagName>, tags: map<int64, Tag>,
                             rules: Rules, id: int64)
    requires RowsOf(attached, tags) && Covers(existing, Unattached(names, UniqNames(attached, rules)), tags, rules)
    ensures !(HasRow(attached, id) && HasRow(existing, id))
  {
  }

  /** The existing rows after their update. */
  function Updated(rows: seq<TagRow>): seq<TagRow> {
    seq(|rows|, i requires 0 <= i < |rows| => TagRow(rows[i].id, Plus(rows[i].tag)))
  }

  lemma UpdatedIds(rows: seq<TagRow>)
    ensures forall id :: HasRow(Updated(rows), id) <==> HasRow(rows, id)
    ensures DistinctRowIds(rows) ==> DistinctRowIds(Updated(rows))
  {
    forall id ensures HasRow(Updated(rows), id) <==> HasRow(rows, id) {
      if HasRow(rows, id) { var i :| 0 <= i < |rows| && rows[i].id == id; assert Updated(rows)[i].id == id; }
    }
  }

  /** The collected rows are about different tags, and none of the new ones is attached yet. */
  lemma CollectedRows(tags: map<int64, Tag>, picTags: set<PicTag>, picId: int64, names: seq<TagName>,
                      attached: seq<TagRow>, existing: seq<TagRow>, made: seq<TagRow>, unknown: seq<TagName>,
                      tags': map<int64, Tag>, rules: Rules)
    requires Collected(tags, picTags, picId, names, attached, existing, made, unknown, tags', rules)
    requires forall pt :: pt in picTags ==> pt.tagId in tags
    ensures var rows := Updated(existing) + made;
            && AboutTags(attached + rows, tags') && DistinctRowIds(attached + rows) && DistinctRowIds(rows)
            && (forall id :: HasRow(rows, id) <==> HasRow(existing, id) || HasRow(made, id))
            && (forall id :: HasRow(rows, id) ==> PicTag(picId, id) !in picTags)
  {
    hide HasRow, UniqNames, Unattached, Named;
    var rows := Updated(existing) + made;
    UpdatedIds(existing);
    RowIsThere(attached);
    RowIsThere(existing);
    DistinctIdsConcat(Updated(existing), made);
    forall id ensures !(HasRow(attached, id) && HasRow(rows, id)) {
      ExistingIsUnattached(attached, existing, names, tags, rules, id);
    }
    DistinctIdsConcat(attached, rows);
    assert AboutTags(rows, tags') by {
      forall i | 0 <= i < |rows| ensures rows[i].id in tags' && rows[i].tag.name == tags'[rows[i].id].name {
        if i < |existing| { assert rows[i] == Updated(existing)[i]; } else { assert rows[i] == made[i - |existing|]; }
      }
    }
  }

  lemma UniqNamesConcat(a: seq<TagRow>, b: seq<TagRow>, rules: Rules)
    ensures UniqNames(a + b, rules) == UniqNames(a, rules) + UniqNames(b, rules)
  {
    forall u | u in UniqNames(a, rules) + UniqNames(b, rules) ensures u in UniqNames(a + b, rules) {
      if u in UniqNames(a, rules) {
        var i :| 0 <= i < |a| && u == rules.uniq(a[i].tag.name);
        assert (a + b)[i] == a[i];
      } else {
        var i :| 0 <= i < |b| && u == rules.uniq(b[i].tag.name);
        assert (a + b)[|a| + i] == b[i];
      }
    }
  }

  lemma RowOfExisting(existing: seq<TagRow>, un: seq<TagName>, tags: map<int64, Tag>, byName: map<string, int64>,
                      rules: Rules, name: TagName)
    requires Indexed(tags, byName, rules) && Covers(existing, un, tags, rules) && name in un && name.uniq in byName
    ensures name.uniq in UniqNames(Updated(existing), rules)
  {
    var id := byName[name.uniq];
    assert Named(un, name.uniq);
    assert HasRow(existing, id);
    var r :| 0 <= r < |existing| && existing[r].id == id;
    assert rules.uniq(Updated(existing)[r].tag.name) == name.uniq;
  }

  lemma RowOfMade(made: seq<TagRow>, unknown: seq<TagName>, rules: Rules, name: TagName)
    requires |made| == |unknown| && forall k :: 0 <= k < |made| ==> made[k].tag == Tag(unknown[k].name, 1)
    requires name in unknown && rules.uniq(name.name) == name.uniq
    ensures name.uniq in UniqNames(made, rules)
  {
    var k :| 0 <= k < |unknown| && unknown[k] == name;
    assert rules.uniq(made[k].tag.name) == name.uniq;
  }

  /** Every name given has its tag among the rows: so "tag missing" is not reached. */
  lemma NamesCovered(attached: seq<TagRow>, existing: seq<TagRow>, made: seq<TagRow>, unknown: seq<TagName>,
                     names: seq<TagName>, tags: map<int64, Tag>, byName: map<string, int64>, rules: Rules, i: nat)
    requires Indexed(tags, byName, rules) && i < |names| && rules.uniq(names[i].name) == names[i].uniq
    requires Covers(existing, Unattached(names, UniqNames(attached, rules)), tags, rules)
    requires unknown == Unattached(Unattached(names, UniqNames(attached, rules)), byName.Keys)
    requires |made| == |unknown| && forall k :: 0 <= k < |made| ==> made[k].tag == Tag(unknown[k].name, 1)
    ensures names[i].uniq in UniqNames(attached + (Updated(existing) + made), rules)
  {
    hide Indexed, Covers, UniqNames, Unattached, Updated;
    var have := UniqNames(attached, rules);
    UniqNamesConcat(attached, Updated(existing) + made, rules);
    UniqNamesConcat(Updated(existing), made, rules);
    if names[i].uniq !in have {
      assert names[i] in Unattached(names, have);
      if names[i].uniq in byName {
        RowOfExisting(existing, Unattached(names, have), tags, byName, rules, names[i]);
      } else {
        RowOfMade(made, unknown, rules, names[i]);
      }
    }
  }

  /** The rows that get attached are exactly those in the answer that were not attached. */
  lemma AnswerRows(tags: map<int64, Tag>, picTags: set<PicTag>, picId: int64, names: seq<TagName>,
                   attached: seq<TagRow>, existing: seq<TagRow>, made: seq<TagRow>, unknown: seq<TagName>,
                   tags': map<int64, Tag>, rules: Rules, tagMap: map<string, int64>, answer: map<string, int64>, id: int64)
    requires Collected(tags, picTags, picId, names, attached, existing, made, unknown, tags', rules)
    requires forall pt :: pt in picTags ==> pt.tagId in tags
    requires IsTagMap(tagMap, attached + (Updated(existing) + made), rules) && IsNameMap(answer, names, tagMap)
    ensures HasRow(Updated(existing) + made, id) <==> id in answer.Values && PicTag(picId, id) !in picTags
  {
    var rows := Updated(existing) + made;
    CollectedRows(tags, picTags, picId, names, attached, existing, made, unknown, tags', rules);
    if HasRow(rows, id) {
      var k :| 0 <= k < |rows| && rows[k].id == id;
      var u := rules.uniq(rows[k].tag.name);
      assert (attached + rows)[|attached| + k] == rows[k];
      assert tagMap[u] == id;
      var i := RowIsNamed(names, attached, existing, made, unknown, tags, rules, k);
      assert answer[names[i].orig] == id;
    }
    if id in answer.Values && PicTag(picId, id) !in picTags {
      var o :| o in answer && answer[o] == id;
      var i :| 0 <= i < |names| && names[i].orig == o;
      var k :| 0 <= k < |attached + rows| && names[i].uniq == rules.uniq((attached + rows)[k].tag.name);
      assert (attached + rows)[k].id == id;
      if k >= |attached| {
        assert rows[k - |attached|].id == id;
      }
    }
  }

  lemma RowIsNamed(names: seq<TagName>, attached: seq<TagRow>, existing: seq<TagRow>, made: seq<TagRow>,
                   unknown: seq<TagName>, tags: map<int64, Tag>, rules: Rules, k: nat) returns (i: nat)
    requires Covers(existing, Unattached(names, UniqNames(attached, rules)), tags, rules)
    requires |made| == |unknown| && forall k :: 0 <= k < |made| ==> made[k].tag == Tag(unknown[k].name, 1)
    requires forall k :: 0 <= k < |unknown| ==> unknown[k] in names && rules.uniq(unknown[k].name) == unknown[k].uniq
    requires k < |Updated(existing) + made|
    ensures i < |names| && names[i].uniq == rules.uniq((Updated(existing) + made)[k].tag.name)
  {
    var un := Unattached(names, UniqNames(attached, rules));
    if k < |existing| {
      assert HasRow(existing, existing[k].id);
      var n :| 0 <= n < |un| && un[n].uniq == rules.uniq(tags[existing[k].id].name);
      assert un[n] in names;
      i :| 0 <= i < |names| && names[i] == un[n];
    } else {
      i :| 0 <= i < |names| && names[i] == unknown[k - |existing|];
    }
  }

  /** Putting the parts together: with its answer, `upsertTags` has attached what it should. */
  lemma CollectedIsUpserted(tags: map<int64, Tag>, picTags: set<PicTag>, picId: int64, names: seq<TagName>,
                            attached: seq<TagRow>, existing: seq<TagRow>, made: seq<TagRow>, unknown: seq<TagName>,
                            tags': map<int64, Tag>, rules: Rules, tagMap: map<string, int64>, answer: map<string, int64>)
    requires Collected(tags, picTags, picId, names, attached, existing, made, unknown, tags', rules)
    requires forall pt :: pt in picTags ==> pt.tagId in tags
    requires IsTagMap(tagMap, attached + (Updated(existing) + made), rules) && IsNameMap(answer, names, tagMap)
    ensures Upserted(tags, picTags, tags', Tagged(picTags, Updated(existing) + made, picId), picId, names, answer, rules)
  {
    hide Collected, HasRow, UniqNames, Tagged, Covers, IsNameMap, IsTagMap, Unattached, Attached, Extended, Bumped,
      Updated, RowsOf, AboutTags, DistinctRowIds;
    var rows := Updated(existing) + made;
    CollectedRows(tags, picTags, picId, names, attached, existing, made, unknown, tags', rules);
    forall id ensures HasRow(rows, id) <==> id in answer.Values && PicTag(picId, id) !in picTags {
      AnswerRows(tags, picTags, picId, names, attached, existing, made, unknown, tags', rules, tagMap, answer, id);
    }
    AnswerTags(attached + rows, names, tags', rules, tagMap, answer);
    TaggedByAnswer(picTags, rows, picId, answer.Values);
    forall id | id in answer.Values ensures id in tags' {
      var o :| o in answer && answer[o] == id;
    }
    CollectedTags(tags, picTags, picId, names, attached, existing, made, unknown, tags', rules);
    forall id | id in tags
      ensures id in tags' && tags'[id] == if id in answer.Values && PicTag(picId, id) !in picTags then Plus(tags[id]) else tags[id]
    {
      OldTag(tags, existing, made, tags', id);
    }
    forall id | id in tags' && id !in tags ensures id in answer.Values && tags'[id].usage == 1 {
      NewTag(tags, existing, made, unknown, tags', id);
    }
    IsAttached(tags, picTags, tags', Tagged(picTags, rows, picId), picId, answer.Values);
  }

  lemma CollectedTags(tags: map<int64, Tag>, picTags: set<PicTag>, picId: int64, names: seq<TagName>,
                      attached: seq<TagRow>, existing: seq<TagRow>, made: seq<TagRow>, unknown: seq<TagName>,
                      tags': map<int64, Tag>, rules: Rules)
    requires Collected(tags, picTags, picId, names, attached, existing, made, unknown, tags', rules)
    ensures Extended(Bumped(tags, existing), made, tags') && |made| == |unknown|
    ensures forall i :: 0 <= i < |made| ==> made[i].tag == Tag(unknown[i].name, 1)
  {
  }

  lemma IsAttached(tags: map<int64, Tag>, picTags: set<PicTag>, tags': map<int64, Tag>, picTags': set<PicTag>,
                   picId: int64, ids: set<int64>)
    requires forall id :: id in ids ==> id in tags'
    requires picTags' == picTags + (set id | id in ids :: PicTag(picId, id))
    requires forall id :: id in tags ==>
               id in tags' && tags'[id] == if id in ids && PicTag(picId, id) !in picTags then Plus(tags[id]) else tags[id]
    requires forall id :: id in tags' && id !in tags ==> id in ids && tags'[id].usage == 1
    ensures Attached(tags, picTags, tags', picTags', picId, ids)
  {
  }

  lemma OldTag(tags: map<int64, Tag>, existing: seq<TagRow>, made: seq<TagRow>, tags': map<int64, Tag>, id: int64)
    requires Extended(Bumped(tags, existing), made, tags') && id in tags
    ensures id in tags' && tags'[id] == (if HasRow(existing, id) then Plus(tags[id]) else tags[id]) && !HasRow(made, id)
  {
  }

  lemma NewTag(tags: map<int64, Tag>, existing: seq<TagRow>, made: seq<TagRow>, unknown: seq<TagName>,
               tags': map<int64, Tag>, id: int64)
    requires Extended(Bumped(tags, existing), made, tags') && id in tags' && id !in tags
    requires |made| == |unknown| && forall i :: 0 <= i < |made| ==> made[i].tag == Tag(unknown[i].name, 1)
    ensures HasRow(made, id) && tags'[id].usage == 1
  {
    UsageOfMade(made, unknown, tags', id);
  }

  lemma UsageOfMade(made: seq<TagRow>, unknown: seq<TagName>, tags': map<int64, Tag>, id: int64)
    requires RowsOf(made, tags') && HasRow(made, id)
    requires |made| == |unknown| && forall i :: 0 <= i < |made| ==> made[i].tag == Tag(unknown[i].name, 1)
    ensures id in tags' && tags'[id].usage == 1
  {
  }

  lemma TaggedByAnswer(picTags: set<PicTag>, rows: seq<TagRow>, picId: int64, ids: set<int64>)
    requires forall id :: HasRow(rows, id) <==> id in ids && PicTag(picId, id) !in picTags
    ensures Tagged(picTags, rows, picId) == picTags + (set id | id in ids :: PicTag(picId, id))
  {
    RowIsThere(rows);
    forall id | id in ids ensures PicTag(picId, id) in Tagged(picTags, rows, picId) {
      if PicTag(picId, id) !in picTags {
        assert HasRow(rows, id);
        var i :| 0 <= i < |rows| && rows[i].id == id;
      }
    }
  }

  /** Each name given is answered with a tag that has its unique form. */
  lemma AnswerTags(rows: seq<TagRow>, names: seq<TagName>, tags: map<int64, Tag>, rules: Rules,
                   tagMap: map<string, int64>, answer: map<string, int64>)
    requires AboutTags(rows, tags) && IsTagMap(tagMap, rows, rules) && IsNameMap(answer, names, tagMap)
    ensures forall o :: o in answer <==> Given(names, o)
    ensures forall i :: 0 <= i < |names| ==>
              names[i].orig in answer && answer[names[i].orig] in tags
              && rules.uniq(tags[answer[names[i].orig]].name) == names[i].uniq
    ensures forall o :: o in answer ==> answer[o] in tags
  {
    forall i | 0 <= i < |names|
      ensures names[i].orig in answer && answer[names[i].orig] in tags
              && rules.uniq(tags[answer[names[i].orig]].name) == names[i].uniq
    {
      var k :| 0 <= k < |rows| && names[i].uniq == rules.uniq(rows[k].tag.name);
    }
  }

  lemma GivenApart(raw: seq<string>, names: seq<TagName>, rules: Rules)
    requires Cleaned(raw, names, rules) && DistinctNames(names)
    ensures forall i, k :: 0 <= i < k < |names| ==> names[i].orig != names[k].orig
  {
  }

  /** `upsertTags`. The errors for a tag that cannot be looked up, is missing or has a twin are never
      returned; the false duplicate is, exactly for names that can be confused. */
  method UpsertTags(j: Job, raw: seq<string>, picId: int64)
    returns (r: Result<map<string, int64>, TagError>, ghost names: seq<TagName>)
    requires j.Valid()
    modifies j`tags, j`byName, j`supply, j`picTags
    ensures r.Ok? ==> j.Valid() && Cleaned(raw, names, j.rules) && DistinctNames(names)
    ensures r.Ok? ==> Upserted(old(j.tags), old(j.picTags), j.tags, j.picTags, picId, names, r.value, j.rules)
    ensures r.Ok? ==> Sole(j.tags, names, r.value, j.rules)
    ensures r.Err? ==> r.error in {BadName, DuplicateName, NoId, FalseDuplicate}
    ensures forall given :: Cleaned(raw, given, j.rules) && !DistinctNames(given) ==> r == Err(DuplicateName)
    ensures forall given :: Cleaned(raw, given, j.rules) && DistinctNames(given) ==>
              if |Unattached(given, old(j.byName).Keys)| > |old(j.supply)| then r == Err(NoId)
              else if Confused(given) then r == Err(FalseDuplicate) else r.Ok?
    ensures r == Err(NoId) ==> |names| > |old(j.supply)|
    ensures r == Err(BadName) <==> exists i :: 0 <= i < |raw| && j.rules.clean(raw[i]) == None
  {
    hide Cleaned, DistinctNames, Confused, Indexed, Covers, Unattached, UniqNames, HasRow, RowsOf, FreshSupply, Bumped,
      Extended, Collected, NewRows, Tagged, IsTagMap, IsNameMap, DistinctRows, DistinctRowIds, AboutTags, Updated,
      Attached, Named;
    names := [];
    forall a, b | Cleaned(raw, a, j.rules) && Cleaned(raw, b, j.rules) ensures a == b {
      CleanedOnce(raw, a, b, j.rules);
    }
    forall a | Cleaned(raw, a, j.rules) ensures !exists i :: 0 <= i < |raw| && j.rules.clean(raw[i]) == None {
      NoneBad(raw, a, j.rules);
    }
    var cleaned := CleanTagNames(raw, j.rules);
    if cleaned.Err? {
      return Err(cleaned.error), names;
    }
    var given := cleaned.value;
    names := given;
    NoneBad(raw, given, j.rules);
    ghost var tags0, byName0, picTags0 := j.tags, j.byName, j.picTags;
    var found := FindAttached(j, picId);
    if found.Err? {
      return Err(CantLookupTag), names;
    }
    var attached := found.value;
    var unattached := FindUnattached(attached, given, j.rules);
    UnattachedDistinct(given, UniqNames(attached, j.rules));
    var existing, unknown := FindExisting(j, unattached);
    UnattachedDistinct(unattached, j.byName.Keys);
    UnattachedShorter(given, j.byName.Keys);
    AttachedAreNamed(attached, j.tags, j.byName, j.rules);
    UnattachedTwice(given, UniqNames(attached, j.rules), j.byName.Keys);
    CoversRows(existing, unattached, j.tags, j.rules);
    BumpedKeeps(j.tags, j.byName, existing, j.supply, j.rules);
    UnknownNames(given, UniqNames(attached, j.rules), j.byName.Keys, j.rules);
    var updated := UpdateExisting(j, existing);
    IsUpdated(existing, updated);
    var created := CreateNew(j, unknown);
    if created.Err? {
      return Err(created.error), names;
    }
    var made := created.value;
    NewRowsTags(unknown, old(j.supply));
    IsCollected(tags0, picTags0, picId, given, attached, existing, made, unknown, j.tags, j.rules);
    CollectedRows(tags0, picTags0, picId, given, attached, existing, made, unknown, j.tags, j.rules);
    var rows := updated + made;
    Attachable(picTags0, rows, picId);
    CreatePicTags(j, rows, picId);
    RestIsFresh(Bumped(tags0, existing), unknown, old(j.supply), j.tags);
    DistinctByIndex(attached + rows, j.tags, j.byName, j.rules);
    EmptyMap(attached, rows, j.rules);
    var ok, tagMap := EnterTags(map[], [], attached, j.rules);
    if !ok {
      return Err(DuplicateTag), names;
    }
    ok, tagMap := EnterTags(tagMap, attached, rows, j.rules);
    if !ok {
      return Err(DuplicateTag), names;
    }
    GivenApart(raw, given, j.rules);
    MapKeys(tagMap, attached + rows, j.rules);
    forall i | 0 <= i < |given| ensures given[i].uniq in tagMap {
      NamesCovered(attached, existing, made, unknown, given, tags0, byName0, j.rules, i);
    }
    r := NameIds(given, tagMap);
    if r.Ok? {
      CollectedIsUpserted(tags0, picTags0, picId, given, attached, existing, made, unknown, j.tags, j.rules,
                          tagMap, r.value);
      AttachedKeepsCounts(tags0, picTags0, j.tags, j.picTags, picId, r.value.Values);
      IndexedSole(j.tags, j.byName, given, r.value, j.rules);
    }
  }

  lemma CleanedOnce(raw: seq<string>, a: seq<TagName>, b: seq<TagName>, rules: Rules)
    requires Cleaned(raw, a, rules) && Cleaned(raw, b, rules)
    ensures a == b
  {
  }

  lemma IndexedSole(tags: map<int64, Tag>, byName: map<string, int64>, names: seq<TagName>, answer: map<string, int64>,
                    rules: Rules)
    requires Indexed(tags, byName, rules)
    requires forall i :: 0 <= i < |names| ==>
               names[i].orig in answer && answer[names[i].orig] in tags
               && rules.uniq(tags[answer[names[i].orig]].name) == names[i].uniq
    ensures Sole(tags, names, answer, rules)
  {
    forall i, id | 0 <= i < |names| && id in tags && rules.uniq(tags[id].name) == names[i].uniq
      ensures names[i].orig in answer && answer[names[i].orig] == id
    {
      assert byName[rules.uniq(tags[id].name)] == id;
      var found := answer[names[i].orig];
      assert byName[rules.uniq(tags[found].name)] == found;
    }
  }

  lemma NoneBad(raw: seq<string>, names: seq<TagName>, rules: Rules)
    requires Cleaned(raw, names, rules)
    ensures |names| == |raw| && forall i :: 0 <= i < |raw| ==> rules.clean(raw[i]) != None
    ensures forall i :: 0 <= i < |names| ==> rules.uniq(names[i].name) == names[i].uniq
  {
  }

  lemma MapKeys(m: map<string, int64>, rows: seq<TagRow>, rules: Rules)
    requires IsTagMap(m, rows, rules)
    ensures m.Keys == UniqNames(rows, rules)
  {
  }

  lemma BumpedKeeps(tags: map<int64, Tag>, byName: map<string, int64>, rows: seq<TagRow>, supply: seq<int64>,
                    rules: Rules)
    requires Indexed(tags, byName, rules) && FreshSupply(tags, supply)
    ensures Indexed(Bumped(tags, rows), byName, rules) && FreshSupply(Bumped(tags, rows), supply)
  {
  }

  lemma UnknownNames(names: seq<TagName>, have: set<string>, known: set<string>, rules: Rules)
    requires forall i :: 0 <= i < |names| ==> rules.uniq(names[i].name) == names[i].uniq
    ensures var unknown := Unattached(Unattached(names, have), known);
            forall i :: 0 <= i < |unknown| ==>
              unknown[i] in names && unknown[i].uniq !in known && rules.uniq(unknown[i].name) == unknown[i].uniq
  {
    var unknown := Unattached(Unattached(names, have), known);
    forall i | 0 <= i < |unknown|
      ensures unknown[i] in names && unknown[i].uniq !in known && rules.uniq(unknown[i].name) == unknown[i].uniq
    {
      assert unknown[i] in unknown;
    }
  }

  lemma IsUpdated(rows: seq<TagRow>, updated: seq<TagRow>)
    requires |updated| == |rows|
    requires forall i :: 0 <= i < |rows| ==> updated[i] == TagRow(rows[i].id, Plus(rows[i].tag))
    ensures updated == Updated(rows)
  {
  }

  lemma NewRowsTags(names: seq<TagName>, supply: seq<int64>)
    requires |names| <= |supply|
    ensures |NewRows(names, supply)| == |names|
    ensures forall i :: 0 <= i < |names| ==> NewRows(names, supply)[i].tag == Tag(names[i].name, 1)
  {
  }

  lemma IsCollected(tags: map<int64, Tag>, picTags: set<PicTag>, picId: int64, names: seq<TagName>,
                    attached: seq<TagRow>, existing: seq<TagRow>, made: seq<TagRow>, unknown: seq<TagName>,
                    tags': map<int64, Tag>, rules: Rules)
    requires RowsOf(attached, tags) && (forall id :: HasRow(attached, id) <==> PicTag(picId, id) in picTags)
    requires Covers(existing, Unattached(names, UniqNames(attached, rules)), tags, rules)
    requires Extended(Bumped(tags, existing), made, tags')
    requires |made| == |unknown| && forall i :: 0 <= i < |made| ==> made[i].tag == Tag(unknown[i].name, 1)
    requires forall i :: 0 <= i < |unknown| ==> unknown[i] in names && rules.uniq(unknown[i].name) == unknown[i].uniq
    ensures Collected(tags, picTags, picId, names, attached, existing, made, unknown, tags', rules)
  {
  }

  lemma Attachable(picTags: set<PicTag>, rows: seq<TagRow>, picId: int64)
    requires DistinctRowIds(rows) && forall id :: HasRow(rows, id) ==> PicTag(picId, id) !in picTags
    ensures forall i :: 0 <= i < |rows| ==> PicTag(picId, rows[i].id) !in picTags
    ensures forall i, k :: 0 <= i < k < |rows| ==> rows[i].id != rows[k].id
  {
    RowIsThere(rows);
  }

  lemma EmptyMap(attached: seq<TagRow>, rows: seq<TagRow>, rules: Rules)
    ensures IsTagMap(map[], [], rules) && DistinctRows([], rules) && [] + attached == attached
    ensures DistinctRows(attached + rows, rules) ==> DistinctRows(attached, rules)
  {
    if DistinctRows(attached + rows, rules) {
      forall i, k | 0 <= i < k < |attached| ensures rules.uniq(attached[i].tag.name) != rules.uniq(attached[k].tag.name) {
        assert (attached + rows)[i] == attached[i] && (attached + rows)[k] == attached[k];
      }
    }
  }

  /** The ids not used up are still new. */
  lemma RestIsFresh(tags: map<int64, Tag>, names: seq<TagName>, supply: seq<int64>, tags': map<int64, Tag>)
    requires FreshSupply(tags, supply) && |names| <= |supply| && Extended(tags, NewRows(names, supply), tags')
    ensures FreshSupply(tags', supply[|names|..])
  {
    var rest := supply[|names|..];
    forall i | 0 <= i < |rest| ensures rest[i] !in tags' {
      assert rest[i] == supply[|names| + i];
    }
  }

  lemma CoversRows(rows: seq<TagRow>, names: seq<TagName>, tags: map<int64, Tag>, rules: Rules)
    requires Covers(rows, names, tags, rules)
    ensures RowsOf(rows, tags)
  {
  }

  lemma UnattachedShorter(names: seq<TagName>, have: set<string>)
    ensures |Unattached(names, have)| <= |names|
  {
  }

  lemma UnattachedTwice(names: seq<TagName>, have: set<string>, known: set<string>)
    requires have <= known
    ensures Unattached(Unattached(names, have), known) == Unattached(names, known)
  {
    hide Select;
    SelectNarrow(names, Without(have), Without(known));
  }

  lemma AttachedAreNamed(rows: seq<TagRow>, tags: map<int64, Tag>, byName: map<string, int64>, rules: Rules)
    requires RowsOf(rows, tags) && Indexed(tags, byName, rules)
    ensures UniqNames(rows, rules) <= byName.Keys
  {
  }

  // When a list of good names is refused

  /** Names that need no cleaning are never mistaken for one another. */
  lemma CleanNamesApart(raw: seq<string>, names: seq<TagName>, rules: Rules)
    requires Cleaned(raw, names, rules) && DistinctNames(names)
    requires forall s :: rules.uniq(rules.uniq(s)) == rules.uniq(s)
    requires forall i :: 0 <= i < |raw| ==> rules.clean(raw[i]) == Some(raw[i])
    ensures !Confused(names)
  {
    forall i, k | 0 <= i < k < |names| ensures names[i].orig != names[k].uniq {
      assert names[i].uniq == rules.uniq(names[i].orig);
    }
  }

  /** But two different names can be: here `d` stands for a character whose compatibility form starts with a
      space, as that of U+00A8 does, and the other name is that form, which cleaning trims. */
  lemma GoodNamesRefused() returns (raw: seq<string>, names: seq<TagName>, rules: Rules)
    ensures forall s :: rules.uniq(rules.uniq(s)) == rules.uniq(s)
    ensures forall s :: rules.clean(s).Some? && rules.clean(rules.clean(s).value) == rules.clean(s)
    ensures Cleaned(raw, names, rules) && DistinctNames(names) && Confused(names)
  {
    rules := Rules(s => Some(if s == " x" then "x" else s), s => if s == "d" then " x" else s);
    raw := [" x", "d"];
    names := [TagName("x", " x", "x"), TagName("d", "d", " x")];
    assert "x" != " x" && "d" != " x" && "d" != "x";
    assert names[0].orig == names[1].uniq;
  }
}
