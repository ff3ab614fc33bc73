/** The comment table: commenting (be/tasks/add_pic_comment_task.go) and purging (be/tasks/purge_pic_task.go)
    keep the comments of every pic a forest, so that any lookup can build its tree. */
module Comments {
  import opened CommentTree
  import opened Indexes
  import opened Notifications
  import opened Prelude
  import opened Votes
  import PageOrder
  import Viewer

  /** A comment's row apart from its key. */
  datatype Row = Row(parent: int64, user: int64, text: string)

  type CommentTable = map<CommentKey, Row>

  /** `EnablePicCommentSelfReply` and `EnablePicCommentSiblingReply`, and the rules for the text. */
  datatype Config = Config(selfReply: Option<bool>, siblingReply: Option<bool>, clean: string -> Option<string>)

  datatype CommentError =
    BadText | PicMissing | OnDeletedPic | ParentMissing | SelfReply | DoubleReply | NoId | EventOverflow

  /** Each comment's parent is zero or an older comment of the same pic. `born` orders comments by insertion. */
  ghost predicate Rooted(comments: CommentTable, born: map<int64, nat>, clock: nat) {
    && (forall k :: k in comments ==> k.comment != 0 && k.comment in born && born[k.comment] < clock)
    && (forall k :: k in comments && comments[k].parent != 0 ==>
          && CommentKey(k.pic, comments[k].parent) in comments && comments[k].parent in born
          && born[comments[k].parent] < born[k.comment])
    && (forall k, l :: k in comments && l in comments && k.comment == l.comment ==> k == l)
  }

  class Job {
    var comments: CommentTable
    var events: EventTable
    /** The ids that the allocator will give out. */
    var supply: seq<int64>
    ghost var born: map<int64, nat>
    ghost var clock: nat

    constructor (comments: CommentTable, events: EventTable, supply: seq<int64>, ghost born: map<int64, nat>,
                 ghost clock: nat)
      ensures this.comments == comments && this.events == events && this.supply == supply
      ensures this.born == born && this.clock == clock
    {
      this.comments, this.events, this.supply := comments, events, supply;
      this.born, this.clock := born, clock;
    }

    ghost predicate Valid()
      reads this
    {
      && Rooted(comments, born, clock) && AllDense(events.Keys) && FreshIds(born, supply)
    }
  }

  ghost predicate FreshIds(born: map<int64, nat>, supply: seq<int64>) {
    && (forall i :: 0 <= i < |supply| ==> supply[i] !in born && supply[i] != 0)
    && (forall i, j :: 0 <= i < j < |supply| ==> supply[i] != supply[j])
  }

  /** A comment by the same user under the same parent. */
  predicate HasReply(comments: CommentTable, pic: int64, parent: int64, user: int64) {
    exists k :: k in comments && k.pic == pic && comments[k].parent == parent && comments[k].user == user
  }

  /** The loop over the comments of the pic that looks for an earlier reply. */
  method FindReply(comments: CommentTable, pic: int64, parent: int64, user: int64) returns (r: bool)
    ensures r <==> HasReply(comments, pic, parent, user)
  {
    var all := set k | k in comments && k.pic == pic;
    var rest := all;
    while rest != {}
      invariant rest <= all
      invariant forall k :: k in all - rest ==> !(comments[k].parent == parent && comments[k].user == user)
      decreases |rest|
    {
      var k :| k in rest;
      if comments[k].parent == parent && comments[k].user == user {
        return true;
      }
      rest := rest - {k};
    }
    return false;
  }

  /** A reply of a named user to a comment of their own, where the options forbid that. */
  predicate SelfReplies(conf: Config, comments: CommentTable, pic: int64, parent: int64, user: int64) {
    && conf.selfReply == Some(false) && user != ANONYMOUS
    && parent != 0 && CommentKey(pic, parent) in comments && comments[CommentKey(pic, parent)].user == user
  }

  /** A second reply of a named user in one place, where the options forbid that. */
  predicate RepeatsReply(conf: Config, comments: CommentTable, pic: int64, parent: int64, user: int64) {
    conf.siblingReply == Some(false) && user != ANONYMOUS && HasReply(comments, pic, parent, user)
  }

  predicate Forbidden(conf: Config, comments: CommentTable, pic: int64, parent: int64, user: int64) {
    SelfReplies(conf, comments, pic, parent, user) || RepeatsReply(conf, comments, pic, parent, user)
  }

  /** A text that can be stored, a pic that is not hard-deleted, and a parent that is there. */
  predicate Placed(pics: map<int64, Pic>, conf: Config, comments: CommentTable, pic: int64, parent: int64,
                   text: string) {
    && conf.clean(text).Some? && pic in pics && !pics[pic].hardDeleted
    && (parent != 0 ==> CommentKey(pic, parent) in comments)
  }

  /** The event step of a comment; who is told does not depend on its id. */
  function Comment(pics: map<int64, Pic>, comments: CommentTable, pic: int64, id: int64, parent: int64): Happening
    requires pic in pics
  {
    Commented(pic, id, ParentAuthor(comments, pic, parent), pics[pic].uploaders)
  }

  /** The author hears of the comment, and so does the author of the comment replied to, or the uploaders of a pic
      that is commented on. */
  ghost predicate CommentHeard(pics: map<int64, Pic>, comments: CommentTable, events: EventTable, events': EventTable,
                               now: int64, pic: int64, id: int64, parent: int64, user: int64)
    requires pic in pics && (parent != 0 ==> CommentKey(pic, parent) in comments)
  {
    && (user != ANONYMOUS ==> Hears(events, events', now, user, OutgoingComment(pic, id)))
    && (parent != 0 ==>
          var u := comments[CommentKey(pic, parent)].user;
          OtherNamed(u, user) ==> Hears(events, events', now, u, IncomingComment(pic, id)))
    && (parent == 0 ==>
          forall u :: u in pics[pic].uploaders && OtherNamed(u, user) ==>
            Hears(events, events', now, u, IncomingComment(pic, id)))
  }

  lemma CommentIsHeard(pics: map<int64, Pic>, comments: CommentTable, events: EventTable, events': EventTable,
                       now: int64, pic: int64, id: int64, parent: int64, user: int64)
    requires pic in pics && (parent != 0 ==> CommentKey(pic, parent) in comments)
    requires ToldByKind(events, events', now, user, Comment(pics, comments, pic, id, parent))
    ensures CommentHeard(pics, comments, events, events', now, pic, id, parent, user)
  {
    hide Hears;
  }

  /** `AddPicCommentTask.Run` up to the commit. */
  method AddPicComment(pics: map<int64, Pic>, j: Job, conf: Config, pic: int64, parent: int64, user: int64,
                       text: string, now: int64)
    returns (r: Result<int64, CommentError>)
    requires j.Valid()
    modifies j
    ensures r.Ok? <==>
              && Placed(pics, conf, old(j.comments), pic, parent, text)
              && !Forbidden(conf, old(j.comments), pic, parent, user)
              && |old(j.supply)| > 0
              && AllFit(old(j.events), now, user, Comment(pics, old(j.comments), pic, 0, parent))
    ensures r.Ok? ==> j.Valid()
    ensures r.Ok? ==>
              && CommentKey(pic, r.value) !in old(j.comments)
              && j.comments == old(j.comments)[CommentKey(pic, r.value) := Row(parent, user, conf.clean(text).value)]
    ensures r.Ok? ==> AddStep(old(j.comments), old(j.born), old(j.clock), j.comments, j.born, j.clock, pic, r.value,
                              Row(parent, user, conf.clean(text).value))
    ensures r.Ok? ==> Told(old(j.events), j.events, now, user, Comment(pics, old(j.comments), pic, r.value, parent))
    ensures r.Ok? ==> CommentHeard(pics, old(j.comments), old(j.events), j.events, now, pic, r.value, parent, user)
    ensures r.Err? ==> j.events == old(j.events)
    ensures r.Err? && r.error != CommentError.EventOverflow ==> j.comments == old(j.comments)
    ensures r == Err(BadText) <==> conf.clean(text) == None
    ensures r == Err(PicMissing) <==> conf.clean(text).Some? && pic !in pics
    ensures r == Err(OnDeletedPic) <==> conf.clean(text).Some? && pic in pics && pics[pic].hardDeleted
    ensures r == Err(ParentMissing) <==>
              && conf.clean(text).Some? && pic in pics && !pics[pic].hardDeleted
              && parent != 0 && CommentKey(pic, parent) !in old(j.comments)
    ensures r == Err(SelfReply) <==>
              && Placed(pics, conf, old(j.comments), pic, parent, text)
              && SelfReplies(conf, old(j.comments), pic, parent, user)
    ensures r == Err(DoubleReply) <==>
              && Placed(pics, conf, old(j.comments), pic, parent, text)
              && !SelfReplies(conf, old(j.comments), pic, parent, user)
              && RepeatsReply(conf, old(j.comments), pic, parent, user)
    ensures r == Err(NoId) <==>
              && Placed(pics, conf, old(j.comments), pic, parent, text)
              && !Forbidden(conf, old(j.comments), pic, parent, user) && old(j.supply) == []
  {
    hide Rooted, FreshIds, AllDense, Told, HasReply, Fits, CommentHeard, ToldByKind;
    var txt := conf.clean(text);
    if txt == None {
      return Err(BadText);
    }
    if pic !in pics {
      return Err(PicMissing);
    }
    if pics[pic].hardDeleted {
      return Err(OnDeletedPic);
    }
    var parentAuthor: Option<int64> := None;
    if parent != 0 {
      if CommentKey(pic, parent) !in j.comments {
        return Err(ParentMissing);
      }
      parentAuthor := Some(j.comments[CommentKey(pic, parent)].user);
      if conf.selfReply == Some(false) {
        if user == parentAuthor.value && user != ANONYMOUS {
          return Err(SelfReply);
        }
      }
    }
    if conf.siblingReply == Some(false) {
      if user != ANONYMOUS {
        var replied := FindReply(j.comments, pic, parent, user);
        if replied {
          return Err(DoubleReply);
        }
      }
    }
    if |j.supply| == 0 {
      return Err(NoId);
    }
    var id := j.supply[0];
    AddKeeps(j.comments, j.born, j.clock, j.supply, pic, Row(parent, user, txt.value));
    j.supply := j.supply[1..];
    j.comments := j.comments[CommentKey(pic, id) := Row(parent, user, txt.value)];
    j.born, j.clock := j.born[id := j.clock], j.clock + 1;
    var told := Notify(j.events, now, user, Commented(pic, id, parentAuthor, pics[pic].uploaders));
    if told == None {
      return Err(CommentError.EventOverflow);
    }
    CommentIsHeard(pics, old(j.comments), j.events, told.value, now, pic, id, parent, user);
    j.events := told.value;
    return Ok(id);
  }

  function ParentAuthor(comments: CommentTable, pic: int64, parent: int64): Option<int64> {
    if parent != 0 && CommentKey(pic, parent) in comments then Some(comments[CommentKey(pic, parent)].user) else None
  }

  /** A new comment, with an id that no comment has ever had. */
  ghost predicate AddStep(comments: CommentTable, born: map<int64, nat>, clock: nat, comments': CommentTable,
                          born': map<int64, nat>, clock': nat, pic: int64, id: int64, row: Row) {
    && id != 0 && id !in born
    && (row.parent != 0 ==> CommentKey(pic, row.parent) in comments)
    && comments' == comments[CommentKey(pic, id) := row]
    && born' == born[id := clock] && clock' == clock + 1
  }

  lemma AddKeeps(comments: CommentTable, born: map<int64, nat>, clock: nat, supply: seq<int64>, pic: int64, row: Row)
    requires Rooted(comments, born, clock) && FreshIds(born, supply) && |supply| > 0
    requires row.parent != 0 ==> CommentKey(pic, row.parent) in comments
    ensures supply[0] != 0 && supply[0] !in born && CommentKey(pic, supply[0]) !in comments
    ensures Rooted(comments[CommentKey(pic, supply[0]) := row], born[supply[0] := clock], clock + 1)
    ensures FreshIds(born[supply[0] := clock], supply[1..])
  {
    AddStepKeeps(comments, born, clock, comments[CommentKey(pic, supply[0]) := row], born[supply[0] := clock], clock + 1,
                 pic, supply[0], row);
  }

  lemma AddStepKeeps(comments: CommentTable, born: map<int64, nat>, clock: nat, comments': CommentTable,
                     born': map<int64, nat>, clock': nat, pic: int64, id: int64, row: Row)
    requires Rooted(comments, born, clock) && AddStep(comments, born, clock, comments', born', clock', pic, id, row)
    ensures Rooted(comments', born', clock')
  {
  }

  // Every run

  datatype Table = Table(comments: CommentTable, born: map<int64, nat>, clock: nat)

  /** A committed transaction: a new comment, a purge of a pic, or one that leaves the parents of comments alone,
      such as a vote on a comment. */
  ghost predicate Next(t: Table, t': Table) {
    || (exists pic, id, row :: AddStep(t.comments, t.born, t.clock, t'.comments, t'.born, t'.clock, pic, id, row))
    || (exists pic :: PurgeStep(t, t', pic))
    || t' == t
  }

  ghost predicate PurgeStep(t: Table, t': Table, pic: int64) {
    && t'.comments == (map k | k in t.comments && k.pic != pic :: t.comments[k])
    && t'.born == t.born && t'.clock == t.clock
  }

  lemma NextKeeps(t: Table, t': Table)
    requires Rooted(t.comments, t.born, t.clock) && Next(t, t')
    ensures Rooted(t'.comments, t'.born, t'.clock)
  {
    if pic, id, row :| AddStep(t.comments, t.born, t.clock, t'.comments, t'.born, t'.clock, pic, id, row) {
      AddStepKeeps(t.comments, t.born, t.clock, t'.comments, t'.born, t'.clock, pic, id, row);
    } else if pic :| PurgeStep(t, t', pic) {
      PurgeKeeps(t, t', pic);
    }
  }

  lemma PurgeKeeps(t: Table, t': Table, pic: int64)
    requires Rooted(t.comments, t.born, t.clock) && PurgeStep(t, t', pic)
    ensures Rooted(t'.comments, t'.born, t'.clock)
  {
  }

  lemma {:induction false} RunKeeps(run: seq<Table>, n: nat)
    requires n < |run| && Rooted(run[0].comments, run[0].born, run[0].clock)
    requires forall i :: 0 <= i < |run| - 1 ==> Next(run[i], run[i + 1])
    ensures Rooted(run[n].comments, run[n].born, run[n].clock)
  {
    hide Rooted, Next;
    if n > 0 {
      RunKeeps(run, n - 1);
      NextKeeps(run[n - 1], run[n]);
    }
  }

  /** The rows of a pic's comments as a find returns them, in some order. */
  ghost predicate RowsOfPic(pcs: seq<Comment>, comments: CommentTable, pic: int64) {
    && (forall c :: c in pcs ==> CommentKey(pic, c.id) in comments && c.parent == comments[CommentKey(pic, c.id)].parent)
    && (forall k :: k in comments && k.pic == pic ==> IsComment(pcs, k.comment))
    && (forall i, j :: 0 <= i < j < |pcs| ==> pcs[i].id != pcs[j].id)
  }

  ghost function Rank(born: map<int64, nat>, clock: nat): map<int64, nat> {
    map id | id in born && born[id] < clock :: clock - born[id]
  }

  /** The rows of any pic form a forest: older comments rank higher. */
  lemma RowsAreForest(comments: CommentTable, born: map<int64, nat>, clock: nat, pic: int64, pcs: seq<Comment>)
    requires Rooted(comments, born, clock) && RowsOfPic(pcs, comments, pic)
    ensures Forest(pcs, Rank(born, clock))
  {
    forall i | 0 <= i < |pcs| ensures pcs[i].id != 0 {
      assert pcs[i] in pcs;
    }
  }

  /** Over every run of commenting and purging, and in whatever order a find returns the rows: the list sent for a
      pic holds each of its comments once, and nothing else. */
  lemma EveryLookupComplete(run: seq<Table>, n: nat, pic: int64, pcs: seq<Comment>)
    requires n < |run| && run[0].comments == map[]
    requires forall i :: 0 <= i < |run| - 1 ==> Next(run[i], run[i + 1])
    requires RowsOfPic(pcs, run[n].comments, pic)
    ensures Forest(pcs, Rank(run[n].born, run[n].clock))
    ensures multiset(PostOrders(TreeOf(pcs, ROOT, Rank(run[n].born, run[n].clock)).children)) == multiset(pcs)
  {
    hide Next, Forest;
    RunKeeps(run, n);
    RowsAreForest(run[n].comments, run[n].born, run[n].clock, pic, pcs);
    ListComplete(pcs, Rank(run[n].born, run[n].clock));
  }

  /** And the page that shows them does not depend on that order. */
  lemma EveryPageSame(run: seq<Table>, n: nat, pic: int64, pcs: seq<Comment>, qcs: seq<Comment>)
    requires n < |run| && run[0].comments == map[]
    requires forall i :: 0 <= i < |run| - 1 ==> Next(run[i], run[i + 1])
    requires RowsOfPic(pcs, run[n].comments, pic) && RowsOfPic(qcs, run[n].comments, pic)
    requires PageOrder.SameRows(pcs, qcs)
    ensures var rank := Rank(run[n].born, run[n].clock);
            && Forest(pcs, rank) && Forest(qcs, rank)
            && PageOrder.Sorted(PageOrder.EachSorted(Viewer.ViewsOf(TreeOf(pcs, ROOT, rank).children)))
            == PageOrder.Sorted(PageOrder.EachSorted(Viewer.ViewsOf(TreeOf(qcs, ROOT, rank).children)))
  {
    hide Next, Forest, TreeOf, RowsOfPic;
    RunKeeps(run, n);
    RowsAreForest(run[n].comments, run[n].born, run[n].clock, pic, pcs);
    RowsAreForest(run[n].comments, run[n].born, run[n].clock, pic, qcs);
    ForestRows(qcs, Rank(run[n].born, run[n].clock));
    PageOrder.SamePage(pcs, qcs, Rank(run[n].born, run[n].clock));
  }

  lemma ForestRows(pcs: seq<Comment>, rank: map<int64, nat>)
    requires Forest(pcs, rank)
    ensures Rows(pcs)
  {
  }
}
