/** The order of comments on the viewer page (`timesort` in fe/handlers/viewer.go): by time, then by id. With it the
    page is the same in whatever order the database returns the rows. */
module PageOrder {
  import opened CommentTree
  import opened Lists
  import opened Prelude
  import opened Viewer
  import Varint

  /** The comparison that `sort.Slice` is given. */
  predicate Before(a: View, b: View) {
    || a.comment.created < b.comment.created
    || (a.comment.created == b.comment.created && LexLess(a.comment.commentId, b.comment.commentId))
  }

  function Earlier(): (View, View) -> bool { (a: View, b: View) => Before(a, b) }

  predicate InOrder(vs: seq<View>) {
    forall i, k :: 0 <= i < k < |vs| ==> Before(vs[i], vs[k])
  }

  /** Any two can be told apart by the comparison. */
  predicate ToldApart(vs: seq<View>) {
    forall i, k :: 0 <= i < k < |vs| ==> Before(vs[i], vs[k]) || Before(vs[k], vs[i])
  }

  /** `sort.Slice`. */
  function Sorted(vs: seq<View>): seq<View> { Sort(vs, Earlier()) }

  /** A view with everything below it in order. */
  function TimeSorted(v: View): View
    decreases v, 1
  {
    View(v.comment, Sorted(EachSorted(v.child)))
  }

  function EachSorted(vs: seq<View>): seq<View>
    decreases vs, 0
  {
    if vs == [] then [] else [TimeSorted(vs[0])] + EachSorted(vs[1..])
  }

  /** `timesort`: it sorts the children first and goes down into each of them then. */
  method Timesort(children: seq<View>) returns (r: seq<View>)
    ensures r == Sorted(EachSorted(children))
    ensures forall i, k :: 0 <= i < k < |r| ==> r[i].comment.created <= r[k].comment.created
    ensures forall i, k :: 0 <= i < k < |r| && r[i].comment.created == r[k].comment.created ==>
              !LexLess(r[k].comment.commentId, r[i].comment.commentId)
    decreases children
  {
    SortedByTime(EachSorted(children));
    r := [];
    if |children| == 0 {
      return;
    }
    var sorted := Sorted(children);
    SortedMembers(children);
    for i := 0 to |sorted|
      invariant r == EachSorted(sorted[..i])
    {
      var c := sorted[i];
      assert c in sorted && c in children;
      var below := Timesort(c.child);
      assert sorted[..i + 1] == sorted[..i] + [c];
      EachMore(sorted[..i], c);
      r := r + [View(c.comment, below)];
    }
    assert sorted[..|sorted|] == sorted;
    SortThenEach(children);
  }

  lemma {:induction false} EachMore(vs: seq<View>, v: View)
    ensures EachSorted(vs + [v]) == EachSorted(vs) + [TimeSorted(v)]
  {
    if vs == [] {
      assert vs + [v] == [v];
      assert EachSorted([v]) == [TimeSorted(v)];
    } else {
      assert (vs + [v])[1..] == vs[1..] + [v];
      EachMore(vs[1..], v);
    }
  }

  lemma SortedMembers(vs: seq<View>)
    ensures forall w :: w in Sorted(vs) <==> w in vs
  {
    hide Sort;
    forall w: View ensures w in Sorted(vs) <==> w in vs {
      SortMembers(vs, Earlier(), w);
    }
  }

  /** The comparison looks at the comments alone, so going down does not disturb the order. */
  lemma {:induction false} InsertThenEach(vs: seq<View>, v: View)
    ensures EachSorted(Insert(vs, v, Earlier())) == Insert(EachSorted(vs), TimeSorted(v), Earlier())
  {
    hide Before;
    if vs != [] {
      SameKeys(v, vs[0]);
      if Before(v, vs[0]) {
        assert ([v] + vs)[1..] == vs;
      } else {
        InsertThenEach(vs[1..], v);
        assert ([vs[0]] + Insert(vs[1..], v, Earlier()))[1..] == Insert(vs[1..], v, Earlier());
        assert EachSorted(vs)[1..] == EachSorted(vs[1..]);
      }
    } else {
      assert EachSorted([v]) == [TimeSorted(v)] + EachSorted([]);
    }
  }

  lemma SameKeys(a: View, b: View)
    ensures Before(TimeSorted(a), TimeSorted(b)) == Before(a, b)
  {
  }

  lemma {:induction false} SortThenEach(vs: seq<View>)
    ensures EachSorted(Sorted(vs)) == Sorted(EachSorted(vs))
  {
    if vs != [] {
      hide Insert;
      SortThenEach(vs[1..]);
      InsertThenEach(Sorted(vs[1..]), vs[0]);
      assert EachSorted(vs)[0] == TimeSorted(vs[0]) && EachSorted(vs)[1..] == EachSorted(vs[1..]);
    }
  }

  // What sorting gives

  lemma {:induction false} LexLessTransitive(a: string, b: string, c: string)
    requires LexLess(a, b) && LexLess(b, c)
    ensures LexLess(a, c)
  {
    if a != [] && a[0] == b[0] == c[0] {
      LexLessTransitive(a[1..], b[1..], c[1..]);
    }
  }

  lemma BeforeOrders(a: View, b: View, c: View)
    ensures Before(a, b) ==> !Before(b, a)
    ensures Before(a, b) && Before(b, c) ==> Before(a, c)
  {
    var x, y, z := a.comment.commentId, b.comment.commentId, c.comment.commentId;
    if LexLess(x, y) { LexLessAsymmetric(x, y); }
    if LexLess(x, y) && LexLess(y, z) { LexLessTransitive(x, y, z); }
  }

  lemma {:induction false} LexLessSplits(a: string, b: string, c: string)
    requires LexLess(a, b)
    ensures LexLess(a, c) || LexLess(c, b)
  {
    if a != [] && c != [] && a[0] == b[0] == c[0] {
      LexLessSplits(a[1..], b[1..], c[1..]);
    }
  }

  lemma BeforeSplits(a: View, b: View, c: View)
    requires Before(a, b)
    ensures Before(a, c) || Before(c, b)
  {
    var x, y, z := a.comment.commentId, b.comment.commentId, c.comment.commentId;
    if LexLess(x, y) { LexLessSplits(x, y, z); }
  }

  /** Earlier comments come first, and of two of one time the one with the lesser id. */
  lemma SortedByTime(vs: seq<View>)
    ensures var r := Sorted(vs);
            forall i, k :: 0 <= i < k < |r| ==>
              && r[i].comment.created <= r[k].comment.created
              && (r[i].comment.created == r[k].comment.created ==>
                    !LexLess(r[k].comment.commentId, r[i].comment.commentId))
  {
    hide Sort, LexLess;
    forall a: View, b: View, c: View
      ensures (Before(a, b) ==> !Before(b, a)) && (Before(a, b) ==> Before(a, c) || Before(c, b))
    {
      BeforeOrders(a, b, c);
      if Before(a, b) { BeforeSplits(a, b, c); }
    }
    SortNoneBefore(vs, Earlier());
    assert forall i, k :: 0 <= i < k < |Sorted(vs)| ==> !Earlier()(Sorted(vs)[k], Sorted(vs)[i]);
  }

  lemma SortedInOrder(vs: seq<View>)
    requires ToldApart(vs)
    ensures InOrder(Sorted(vs))
  {
    hide Sort, Before;
    forall a: View, b: View, c: View ensures Before(a, b) && Before(b, c) ==> Before(a, c) {
      BeforeOrders(a, b, c);
    }
    SortAscending(vs, Earlier());
    assert forall i, k :: 0 <= i < k < |Sorted(vs)| ==> Earlier()(Sorted(vs)[i], Sorted(vs)[k]);
  }

  /** Things in order are in one order only. */
  lemma {:induction false} OneOrder(vs: seq<View>, ws: seq<View>)
    requires InOrder(vs) && InOrder(ws) && forall x :: x in vs <==> x in ws
    ensures vs == ws
    decreases |vs|
  {
    if vs == [] {
      assert forall i :: 0 <= i < |ws| ==> ws[i] in ws;
    } else {
      assert vs[0] in vs && vs[0] in ws;
      var k :| 0 <= k < |ws| && ws[k] == vs[0];
      assert ws[0] in ws && ws[0] in vs;
      var i :| 0 <= i < |vs| && vs[i] == ws[0];
      BeforeOrders(vs[0], ws[0], vs[0]);
      assert vs[0] == ws[0];
      RestMembers(vs);
      RestMembers(ws);
      OneOrder(vs[1..], ws[1..]);
    }
  }

  lemma RestMembers(vs: seq<View>)
    requires InOrder(vs) && vs != []
    ensures InOrder(vs[1..]) && forall x :: x in vs[1..] <==> x in vs && x != vs[0]
  {
    forall x | x in vs[1..] ensures x != vs[0] {
      var k :| 0 <= k < |vs[1..]| && vs[1..][k] == x;
      assert vs[k + 1] == x;
      BeforeOrders(vs[0], x, x);
    }
    assert vs == [vs[0]] + vs[1..];
  }

  // Trees from rows in different orders

  ghost predicate SameRows(pcs: seq<Comment>, qcs: seq<Comment>) {
    forall c :: c in pcs <==> c in qcs
  }

  /** Being a forest does not depend on the order. */
  lemma ForestSame(pcs: seq<Comment>, qcs: seq<Comment>, rank: map<int64, nat>)
    requires Forest(pcs, rank) && Rows(qcs) && SameRows(pcs, qcs)
    ensures Forest(qcs, rank)
  {
  }

  /** The view of a comment and its replies, in order. */
  ghost function Shown(pcs: seq<Comment>, c: Comment, rank: map<int64, nat>): View
    requires Forest(pcs, rank) && (c == ROOT || c in pcs)
  {
    TimeSorted(ViewOf(TreeOf(pcs, c, rank)))
  }

  lemma {:induction false} EachShown(pcs: seq<Comment>, c: Comment, kids: seq<Comment>, rank: map<int64, nat>)
    requires Forest(pcs, rank) && (c == ROOT || c in pcs) && forall k :: k in kids ==> k in Kids(pcs, c.id)
    ensures var each := EachSorted(ViewsOf(TreesOf(pcs, c, kids, rank)));
            |each| == |kids| && forall i :: 0 <= i < |kids| ==> kids[i] in pcs && each[i] == Shown(pcs, kids[i], rank)
    decreases |kids|
  {
    hide *;
    if kids == [] {
      EachNone(pcs, c, rank);
    } else {
      var rest := kids[1..];
      assert kids[0] in kids && forall k :: k in rest ==> k in kids;
      EachShown(pcs, c, rest, rank);
      EachFirst(pcs, c, kids, rank);
      forall i | 0 < i < |kids| ensures kids[i] in pcs && kids[i] == rest[i - 1] {
      }
    }
  }

  lemma EachNone(pcs: seq<Comment>, c: Comment, rank: map<int64, nat>)
    requires Forest(pcs, rank) && (c == ROOT || c in pcs)
    ensures EachSorted(ViewsOf(TreesOf(pcs, c, [], rank))) == []
  {
    hide Forest;
  }

  lemma EachFirst(pcs: seq<Comment>, c: Comment, kids: seq<Comment>, rank: map<int64, nat>)
    requires kids != [] && Forest(pcs, rank) && (c == ROOT || c in pcs) && forall k :: k in kids ==> k in Kids(pcs, c.id)
    ensures kids[0] in pcs
    ensures EachSorted(ViewsOf(TreesOf(pcs, c, kids, rank)))
            == [Shown(pcs, kids[0], rank)] + EachSorted(ViewsOf(TreesOf(pcs, c, kids[1..], rank)))
  {
    hide Forest, TimeSorted, TreeOf, Kids;
    KidsMembers(pcs, c.id);
    assert kids[0] in kids;
    var ts := TreesOf(pcs, c, kids, rank);
    assert ts[0] == TreeOf(pcs, kids[0], rank) && ts[1..] == TreesOf(pcs, c, kids[1..], rank);
    assert ViewsOf(ts)[1..] == ViewsOf(ts[1..]);
  }

  lemma DifferentKeys(a: View, b: View, x: Comment, y: Comment)
    requires a.comment == ToApi(x) && b.comment == ToApi(y) && x.id != y.id
    ensures Before(a, b) || Before(b, a)
  {
    Varint.EncodeOrderIff(ToUint64(x.id), ToUint64(y.id));
    Varint.EncodeOrderIff(ToUint64(y.id), ToUint64(x.id));
  }

  /** Replies to one comment have different ids, so the comparison can tell them apart. */
  lemma ShownComparable(pcs: seq<Comment>, c: Comment, rank: map<int64, nat>, each: seq<View>)
    requires Forest(pcs, rank) && (c == ROOT || c in pcs)
    requires each == EachSorted(ViewsOf(TreesOf(pcs, c, Kids(pcs, c.id), rank)))
    ensures ToldApart(each)
  {
    var kids := Kids(pcs, c.id);
    EachShown(pcs, c, kids, rank);
    DistinctKids(pcs, c.id, rank);
    hide TimeSorted, EachSorted, ViewsOf, TreesOf, Kids, Before, Forest, Shown, ToApi;
    forall i, k | 0 <= i < k < |each| ensures Before(each[i], each[k]) || Before(each[k], each[i]) {
      ShownKey(pcs, kids[i], rank);
      ShownKey(pcs, kids[k], rank);
      DifferentKeys(each[i], each[k], kids[i], kids[k]);
    }
  }

  lemma DistinctKids(pcs: seq<Comment>, id: int64, rank: map<int64, nat>)
    requires Forest(pcs, rank)
    ensures forall i, k :: 0 <= i < k < |Kids(pcs, id)| ==> Kids(pcs, id)[i].id != Kids(pcs, id)[k].id
  {
    var kids := Kids(pcs, id);
    KidsDistinct(pcs, id);
    KidsMembers(pcs, id);
    forall i, k | 0 <= i < k < |kids| ensures kids[i].id != kids[k].id {
      assert kids[i] in kids && kids[k] in kids;
      RowIdsDiffer(pcs, kids[i], kids[k]);
    }
  }

  lemma RowIdsDiffer(pcs: seq<Comment>, a: Comment, b: Comment)
    requires Rows(pcs) && a in pcs && b in pcs && a != b
    ensures a.id != b.id
  {
  }

  lemma ShownKey(pcs: seq<Comment>, c: Comment, rank: map<int64, nat>)
    requires Forest(pcs, rank) && (c == ROOT || c in pcs)
    ensures Shown(pcs, c, rank).comment == ToApi(c)
  {
  }

  /** What is shown of the replies: of each of them, and of nothing else. */
  lemma ShownIn(pcs: seq<Comment>, c: Comment, rank: map<int64, nat>, each: seq<View>, k: Comment)
    requires Forest(pcs, rank) && (c == ROOT || c in pcs) && k in pcs && k.parent == c.id
    requires each == EachSorted(ViewsOf(TreesOf(pcs, c, Kids(pcs, c.id), rank)))
    ensures Shown(pcs, k, rank) in each
  {
    var kids := Kids(pcs, c.id);
    EachShown(pcs, c, kids, rank);
    KidsMembers(pcs, c.id);
    hide Forest, Kids, TreesOf, ViewsOf, EachSorted, Shown;
    var i :| 0 <= i < |kids| && kids[i] == k;
    assert each[i] in each;
  }

  lemma ShownOf(pcs: seq<Comment>, c: Comment, rank: map<int64, nat>, each: seq<View>, x: View) returns (k: Comment)
    requires Forest(pcs, rank) && (c == ROOT || c in pcs) && x in each
    requires each == EachSorted(ViewsOf(TreesOf(pcs, c, Kids(pcs, c.id), rank)))
    ensures k in pcs && k.parent == c.id && x == Shown(pcs, k, rank)
  {
    var kids := Kids(pcs, c.id);
    EachShown(pcs, c, kids, rank);
    KidsMembers(pcs, c.id);
    hide Forest, Kids, TreesOf, ViewsOf, EachSorted, Shown;
    var i :| 0 <= i < |each| && each[i] == x;
    k := kids[i];
    assert k in kids;
  }

  lemma {:induction false} SameShown(pcs: seq<Comment>, qcs: seq<Comment>, c: Comment, rank: map<int64, nat>)
    requires Forest(pcs, rank) && Forest(qcs, rank) && SameRows(pcs, qcs) && (c == ROOT || c in pcs)
    ensures Shown(pcs, c, rank) == Shown(qcs, c, rank)
    decreases if c == ROOT then 1 else 0, Height(c.id, rank)
  {
    var a := EachSorted(ViewsOf(TreesOf(pcs, c, Kids(pcs, c.id), rank)));
    var b := EachSorted(ViewsOf(TreesOf(qcs, c, Kids(qcs, c.id), rank)));
    ShownIs(pcs, c, rank);
    ShownIs(qcs, c, rank);
    ShownComparable(pcs, c, rank, a);
    ShownComparable(qcs, c, rank, b);
    KidsMembers(pcs, c.id);
    hide Forest, Kids, TreesOf, ViewsOf, EachSorted, Sorted, Shown, ToldApart, InOrder;
    forall k | k in pcs && k.parent == c.id ensures k in qcs && Shown(pcs, k, rank) == Shown(qcs, k, rank) {
      KidBelow(pcs, c, rank, k);
      SameShown(pcs, qcs, k, rank);
    }
    forall x ensures x in a <==> x in b {
      if x in a {
        var k := ShownOf(pcs, c, rank, a, x);
        ShownIn(qcs, c, rank, b, k);
      }
      if x in b {
        var k := ShownOf(qcs, c, rank, b, x);
        ShownIn(pcs, c, rank, a, k);
      }
    }
    SameSorted(a, b);
  }

  /** Sorting depends on what is sorted alone. */
  lemma SameSorted(a: seq<View>, b: seq<View>)
    requires ToldApart(a) && ToldApart(b) && forall x :: x in a <==> x in b
    ensures Sorted(a) == Sorted(b)
  {
    hide Sorted, ToldApart, InOrder;
    SortedInOrder(a);
    SortedInOrder(b);
    SortedMembers(a);
    SortedMembers(b);
    OneOrder(Sorted(a), Sorted(b));
  }

  lemma ShownIs(pcs: seq<Comment>, c: Comment, rank: map<int64, nat>)
    requires Forest(pcs, rank) && (c == ROOT || c in pcs)
    ensures Shown(pcs, c, rank) == View(ToApi(c), Sorted(EachSorted(ViewsOf(TreesOf(pcs, c, Kids(pcs, c.id), rank)))))
  {
  }

  /** The whole way: two lookups that return the same rows in different orders give the same page. */
  lemma SamePage(pcs: seq<Comment>, qcs: seq<Comment>, rank: map<int64, nat>)
    requires Forest(pcs, rank) && Rows(qcs) && SameRows(pcs, qcs)
    ensures Forest(qcs, rank)
    ensures Sorted(EachSorted(ViewsOf(TreeOf(pcs, ROOT, rank).children)))
         == Sorted(EachSorted(ViewsOf(TreeOf(qcs, ROOT, rank).children)))
  {
    ForestSame(pcs, qcs, rank);
    SameShown(pcs, qcs, ROOT, rank);
    ShownIs(pcs, ROOT, rank);
    ShownIs(qcs, ROOT, rank);
  }

  /** From the rows to the page as shown. */
  method ShowSorted(pcs: seq<Comment>, ghost rank: map<int64, nat>) returns (child: seq<View>)
    requires Forest(pcs, rank)
    ensures child == Sorted(EachSorted(ViewsOf(TreeOf(pcs, ROOT, rank).children)))
  {
    hide TreeOf, Forest, Sorted, EachSorted, ViewsOf;
    var rebuilt := Show(pcs, rank);
    child := Timesort(rebuilt);
  }
}
