/** The comment tree as the viewer page rebuilds it from the wire (fe/handlers/viewer.go). */
module Viewer {
  import opened CommentTree
  import opened Lists
  import opened Prelude
  import Varint

  /** A comment on the wire: ids are in the varint code (be/handlers/apiconvert.go). */
  datatype ApiComment = ApiComment(commentId: string, parentId: string, text: string, created: int)

  datatype View = View(comment: ApiComment, child: seq<View>)

  function KeyOf(id: int64): string {
    Varint.Encode(ToUint64(id))
  }

  function ToApi(c: Comment): ApiComment {
    ApiComment(KeyOf(c.id), KeyOf(c.parent), c.text, c.created)
  }

  /** Both ids are read back from the wire by the decoder, and text and time are as stored. */
  lemma ApiReads(c: Comment)
    ensures Varint.DecodeAll(ToApi(c).commentId) == Ok(c.id) && Varint.DecodeAll(ToApi(c).parentId) == Ok(c.parent)
    ensures ToApi(c).text == c.text && ToApi(c).created == c.created
  {
    Varint.RoundTrip(c.id);
    Varint.RoundTrip(c.parent);
  }

  function ToApis(cs: seq<Comment>): seq<ApiComment> {
    if cs == [] then [] else [ToApi(cs[0])] + ToApis(cs[1..])
  }

  type Found = map<string, seq<View>>

  /** A read of the map; a key that is not there has no children. */
  function At(m: Found, key: string): seq<View> {
    if key in m then m[key] else []
  }

  /** One round of the loop: the comment takes the children found so far, and goes to its parent. */
  function Place(m: Found, c: ApiComment): Found {
    m[c.parentId := At(m, c.parentId) + [View(c, At(m, c.commentId))]]
  }

  function PlaceAll(m: Found, cs: seq<ApiComment>): Found
    decreases cs
  {
    if cs == [] then m else PlaceAll(Place(m, cs[0]), cs[1..])
  }

  /** The single pass of `viewerHandler.static`; the result is `root.Child`. */
  method Rebuild(comments: seq<ApiComment>) returns (child: seq<View>)
    ensures child == if comments == [] then [] else At(PlaceAll(map[], comments), "0")
  {
    child := [];
    if |comments| > 0 {
      var m: Found := map[];
      for i := 0 to |comments|
        invariant PlaceAll(m, comments[i..]) == PlaceAll(map[], comments)
      {
        var c := comments[i];
        assert comments[i..][1..] == comments[i + 1..];
        m := m[c.parentId := At(m, c.parentId) + [View(c, At(m, c.commentId))]];
      }
      child := At(m, "0");
    }
  }

  // The tree as the viewer should show it

  function ViewOf(t: Tree): View
    decreases t, 1
  {
    View(ToApi(t.comment), ViewsOf(t.children))
  }

  function ViewsOf(ts: seq<Tree>): seq<View>
    decreases ts, 0
  {
    if ts == [] then [] else [ViewOf(ts[0])] + ViewsOf(ts[1..])
  }

  /** Every comment below names the one it is below. */
  ghost predicate Linked(t: Tree)
    decreases t, 1
  {
    AllLinked(t.children, t.comment.id)
  }

  ghost predicate AllLinked(ts: seq<Tree>, parent: int64)
    decreases ts, 0
  {
    ts == [] || (ts[0].comment.parent == parent && Linked(ts[0]) && AllLinked(ts[1..], parent))
  }

  predicate HasId(cs: seq<Comment>, id: int64) {
    exists i :: 0 <= i < |cs| && cs[i].id == id
  }

  predicate DistinctIds(cs: seq<Comment>) {
    forall i, j :: 0 <= i < j < |cs| ==> cs[i].id != cs[j].id
  }

  lemma KeysDiffer(a: int64, b: int64)
    requires a != b
    ensures KeyOf(a) != KeyOf(b)
  {
    if KeyOf(a) == KeyOf(b) {
      assert KeyOf(a) + "" == KeyOf(b) + "";
      Varint.PrefixFree(ToUint64(a), ToUint64(b), "", "");
    }
  }

  lemma {:induction false} PlaceConcat(m: Found, a: seq<Comment>, b: seq<Comment>)
    ensures PlaceAll(m, ToApis(a + b)) == PlaceAll(PlaceAll(m, ToApis(a)), ToApis(b))
    decreases a
  {
    hide Place;
    if a == [] {
      assert a + b == b;
    } else {
      assert (a + b)[0] == a[0] && (a + b)[1..] == a[1..] + b;
      PlaceFirst(m, a);
      PlaceFirst(m, a + b);
      PlaceConcat(Place(m, ToApi(a[0])), a[1..], b);
    }
  }

  lemma PlaceFirst(m: Found, cs: seq<Comment>)
    requires cs != []
    ensures PlaceAll(m, ToApis(cs)) == PlaceAll(Place(m, ToApi(cs[0])), ToApis(cs[1..]))
  {
    assert ToApis(cs)[0] == ToApi(cs[0]) && ToApis(cs)[1..] == ToApis(cs[1..]);
  }

  lemma IdsConcat(a: seq<Comment>, b: seq<Comment>, id: int64)
    ensures HasId(a + b, id) <==> HasId(a, id) || HasId(b, id)
    ensures DistinctIds(a + b) ==> DistinctIds(a) && DistinctIds(b) && !(HasId(a, id) && HasId(b, id))
  {
    hide HasId, DistinctIds;
    HasIdConcat(a, b, id);
    if DistinctIds(a + b) {
      DistinctParts(a, b);
      DistinctApart(a, b, id);
    }
  }

  lemma HasIdConcat(a: seq<Comment>, b: seq<Comment>, id: int64)
    ensures HasId(a + b, id) <==> HasId(a, id) || HasId(b, id)
  {
    if HasId(a + b, id) {
      var i :| 0 <= i < |a + b| && (a + b)[i].id == id;
      assert if i < |a| then a[i].id == id else b[i - |a|].id == id;
    }
    if HasId(a, id) { var i :| 0 <= i < |a| && a[i].id == id; assert (a + b)[i].id == id; }
    if HasId(b, id) { var i :| 0 <= i < |b| && b[i].id == id; assert (a + b)[|a| + i].id == id; }
  }

  lemma DistinctParts(a: seq<Comment>, b: seq<Comment>)
    requires DistinctIds(a + b)
    ensures DistinctIds(a) && DistinctIds(b)
  {
    forall i, j | 0 <= i < j < |a| ensures a[i].id != a[j].id {
      assert (a + b)[i] == a[i] && (a + b)[j] == a[j];
    }
    forall i, j | 0 <= i < j < |b| ensures b[i].id != b[j].id {
      assert (a + b)[|a| + i] == b[i] && (a + b)[|a| + j] == b[j];
    }
  }

  lemma DistinctApart(a: seq<Comment>, b: seq<Comment>, id: int64)
    requires DistinctIds(a + b)
    ensures !(HasId(a, id) && HasId(b, id))
  {
    forall i, j | 0 <= i < |a| && 0 <= j < |b| ensures a[i].id != b[j].id {
      assert (a + b)[i] == a[i] && (a + b)[|a| + j] == b[j];
    }
  }

  /** Nothing has been found yet below the given comments. */
  ghost predicate Untouched(m: Found, cs: seq<Comment>) {
    forall id: int64 :: HasId(cs, id) ==> At(m, KeyOf(id)) == []
  }

  /** Only the children of `parent`, and of the comments themselves, have changed. */
  ghost predicate Unchanged(m: Found, m': Found, cs: seq<Comment>, parent: int64) {
    forall id: int64 :: !HasId(cs, id) && id != parent ==> At(m', KeyOf(id)) == At(m, KeyOf(id))
  }

  /** Placing a flattened tree adds its view to the children of its parent. */
  lemma {:induction false} PlaceTree(m: Found, t: Tree)
    requires Linked(t) && DistinctIds(PostOrder(t)) && !HasId(PostOrder(t), t.comment.parent)
    requires Untouched(m, PostOrder(t))
    ensures var m' := PlaceAll(m, ToApis(PostOrder(t)));
            && At(m', KeyOf(t.comment.parent)) == At(m, KeyOf(t.comment.parent)) + [ViewOf(t)]
            && Unchanged(m, m', PostOrder(t), t.comment.parent)
    decreases t, 1
  {
    hide HasId, DistinctIds, KeyOf;
    var inner, c := PostOrders(t.children), t.comment;
    var m1 := PlaceAll(m, ToApis(inner));
    assert PostOrder(t) == inner + [c];
    IdSingle(c);
    forall id: int64 ensures HasId(PostOrder(t), id) <==> HasId(inner, id) || id == c.id {
      IdsConcat(inner, [c], id);
    }
    IdsConcat(inner, [c], c.id);
    PlaceTrees(m, t.children, c.id);
    PlaceConcat(m, inner, [c]);
    assert ToApis([c]) == [ToApi(c)] && ToApis([c])[1..] == [];
    var m' := PlaceAll(m, ToApis(PostOrder(t)));
    assert m' == Place(m1, ToApi(c));
    assert At(m1, KeyOf(c.id)) == [] + ViewsOf(t.children) == ViewsOf(t.children);
    assert At(m1, KeyOf(c.parent)) == At(m, KeyOf(c.parent));
    forall id: int64 | !HasId(PostOrder(t), id) && id != c.parent ensures At(m', KeyOf(id)) == At(m, KeyOf(id)) {
      KeysDiffer(id, c.parent);
    }
  }

  lemma IdSingle(c: Comment)
    ensures forall id: int64 :: HasId([c], id) <==> id == c.id
  {
    assert [c][0] == c;
  }

  /** `a` and `b` are the two parts of `all`. */
  ghost predicate Parts(all: seq<Comment>, a: seq<Comment>, b: seq<Comment>) {
    && DistinctIds(a) && DistinctIds(b)
    && forall id: int64 :: (HasId(all, id) <==> HasId(a, id) || HasId(b, id)) && !(HasId(a, id) && HasId(b, id))
  }

  lemma PartsOf(a: seq<Comment>, b: seq<Comment>)
    requires DistinctIds(a + b)
    ensures Parts(a + b, a, b)
  {
    hide HasId, DistinctIds;
    IdsConcat(a, b, 0);
    forall id: int64 ensures (HasId(a + b, id) <==> HasId(a, id) || HasId(b, id)) && !(HasId(a, id) && HasId(b, id)) {
      IdsConcat(a, b, id);
    }
  }

  lemma UntouchedParts(m: Found, m1: Found, all: seq<Comment>, a: seq<Comment>, b: seq<Comment>, parent: int64)
    requires Parts(all, a, b) && Untouched(m, all) && !HasId(all, parent)
    ensures Untouched(m, a) && (Unchanged(m, m1, a, parent) ==> Untouched(m1, b))
  {
    hide HasId, KeyOf, At;
  }

  lemma UnchangedParts(m: Found, m1: Found, m2: Found, all: seq<Comment>, a: seq<Comment>, b: seq<Comment>,
                       parent: int64)
    requires Parts(all, a, b) && Unchanged(m, m1, a, parent) && Unchanged(m1, m2, b, parent)
    ensures Unchanged(m, m2, all, parent)
  {
    hide HasId, KeyOf, At;
  }

  lemma ViewsAssoc(vs: seq<View>, ts: seq<Tree>)
    requires ts != []
    ensures vs + [ViewOf(ts[0])] + ViewsOf(ts[1..]) == vs + ViewsOf(ts)
  {
  }

  lemma {:induction false} PlaceTrees(m: Found, ts: seq<Tree>, parent: int64)
    requires AllLinked(ts, parent) && DistinctIds(PostOrders(ts)) && !HasId(PostOrders(ts), parent)
    requires Untouched(m, PostOrders(ts))
    ensures var m' := PlaceAll(m, ToApis(PostOrders(ts)));
            && At(m', KeyOf(parent)) == At(m, KeyOf(parent)) + ViewsOf(ts)
            && Unchanged(m, m', PostOrders(ts), parent)
    decreases ts, 0
  {
    if ts == [] {
      PlaceNothing(m);
    } else {
      var all, a, b := PostOrders(ts), PostOrder(ts[0]), PostOrders(ts[1..]);
      var m1 := PlaceAll(m, ToApis(a));
      hide HasId, DistinctIds, KeyOf, PlaceAll, Untouched, Unchanged, At, ToApis, ViewOf, ViewsOf;
      PartsOf(a, b);
      UntouchedParts(m, m1, all, a, b, parent);
      PlaceTree(m, ts[0]);
      PlaceTrees(m1, ts[1..], parent);
      PlaceConcat(m, a, b);
      UnchangedParts(m, m1, PlaceAll(m1, ToApis(b)), all, a, b, parent);
      ViewsAssoc(At(m, KeyOf(parent)), ts);
    }
  }

  lemma PlaceNothing(m: Found)
    ensures PlaceAll(m, ToApis([])) == m
  {
  }

  // The main result

  lemma {:induction false} TreesLinked(pcs: seq<Comment>, c: Comment, kids: seq<Comment>, rank: map<int64, nat>)
    requires Forest(pcs, rank) && (c == ROOT || c in pcs)
    requires forall k :: k in kids ==> k in Kids(pcs, c.id)
    ensures AllLinked(TreesOf(pcs, c, kids, rank), c.id)
    decreases if c == ROOT then 1 else 0, Height(c.id, rank), |kids|
  {
    hide Kids, Forest;
    if kids != [] {
      var k := kids[0];
      assert k in kids;
      KidBelow(pcs, c, rank, k);
      TreesLinked(pcs, k, Kids(pcs, k.id), rank);
      TreesLinked(pcs, c, kids[1..], rank);
    }
  }

  lemma ListIds(pcs: seq<Comment>, list: seq<Comment>)
    requires Rows(pcs) && multiset(list) == multiset(pcs)
    ensures DistinctIds(list) && !HasId(list, 0)
  {
    forall i | 0 <= i < |list| ensures list[i] in pcs {
      assert list[i] in multiset(list);
    }
    forall i, j | 0 <= i < j < |list| ensures list[i].id != list[j].id {
      if list[i].id == list[j].id {
        SameIdSame(pcs, list[i], list[j]);
        TwiceInMultiset(list, i, j);
        OnceInMultiset(pcs, list[i]);
      }
    }
  }

  lemma SameIdSame(pcs: seq<Comment>, a: Comment, b: Comment)
    requires Rows(pcs) && a in pcs && b in pcs && a.id == b.id
    ensures a == b
  {
  }

  /** What the backend flattens, the viewer rebuilds: the same tree, children in the same order. */
  lemma RoundTrip(pcs: seq<Comment>, rank: map<int64, nat>)
    requires Forest(pcs, rank)
    ensures var ts := TreeOf(pcs, ROOT, rank).children;
            At(PlaceAll(map[], ToApis(PostOrders(ts))), "0") == ViewsOf(ts)
  {
    hide TreesOf, KeyOf, DistinctIds, HasId, Kids, PlaceAll, ToApis, PostOrders, ViewsOf, AllLinked;
    var ts := TreeOf(pcs, ROOT, rank).children;
    ListComplete(pcs, rank);
    ListIds(pcs, PostOrders(ts));
    TreesLinked(pcs, ROOT, Kids(pcs, 0), rank);
    PlaceTrees(map[], ts, 0);
    RootKey();
  }

  lemma RootKey()
    ensures KeyOf(0) == "0"
  {
  }

  /** From the rows to the page and back: the whole way through the two loops and the recursion. */
  method Show(pcs: seq<Comment>, ghost rank: map<int64, nat>) returns (child: seq<View>)
    requires Forest(pcs, rank)
    ensures child == ViewsOf(TreeOf(pcs, ROOT, rank).children)
  {
    hide TreeOf, Forest, PlaceAll, PostOrders;
    var list := CommentList(pcs, rank);
    child := Rebuild(ToApis(list));
    RoundTrip(pcs, rank);
    NothingToShow(TreeOf(pcs, ROOT, rank).children);
    assert list == [] <==> ToApis(list) == [];
  }

  lemma NothingToShow(ts: seq<Tree>)
    ensures PostOrders(ts) == [] ==> ViewsOf(ts) == []
  {
    if ts != [] { assert PostOrder(ts[0]) != []; }
  }
}
