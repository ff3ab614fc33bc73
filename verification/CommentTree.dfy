/** The comments of a pic as a tree (be/tasks/lookup_pic_task.go), flattened for the wire
    (be/handlers/lookup_pic_details_handler.go). */
module CommentTree {
  import opened Lists
  import opened Prelude

  datatype Comment = Comment(id: int64, parent: int64, text: string, created: int)

  /** The fake root, a comment with nothing set. */
  const ROOT := Comment(0, 0, "", 0)

  datatype Tree = Tree(comment: Comment, children: seq<Tree>)

  // Rows of the comment table

  /** Comments of one pic, in any order: ids are unique, and zero is not an id. */
  ghost predicate Rows(pcs: seq<Comment>) {
    && (forall i :: 0 <= i < |pcs| ==> pcs[i].id != 0)
    && (forall i, j :: 0 <= i < j < |pcs| ==> pcs[i].id != pcs[j].id)
  }

  /** The rows that name a comment as their parent, in input order. */
  function Kids(pcs: seq<Comment>, id: int64): seq<Comment> {
    if pcs == [] then []
    else Kids(pcs[..|pcs| - 1], id) + if pcs[|pcs| - 1].parent == id then [pcs[|pcs| - 1]] else []
  }

  lemma {:induction false} KidsMembers(pcs: seq<Comment>, id: int64)
    ensures forall c :: c in Kids(pcs, id) <==> c in pcs && c.parent == id
  {
    if pcs != [] {
      var n := |pcs| - 1;
      KidsMembers(pcs[..n], id);
      assert forall c :: c in pcs <==> c in pcs[..n] || c == pcs[n];
    }
  }

  predicate IsComment(pcs: seq<Comment>, id: int64) {
    exists c :: c in pcs && c.id == id
  }

  /** Every comment hangs below the root: its parent is the root, or a comment of higher rank. */
  ghost predicate Forest(pcs: seq<Comment>, rank: map<int64, nat>) {
    && Rows(pcs)
    && forall c :: c in pcs ==>
         && c.id in rank
         && (c.parent == 0 || (IsComment(pcs, c.parent) && c.parent in rank && rank[c.id] < rank[c.parent]))
  }

  // The tree that the rows describe

  function Height(id: int64, rank: map<int64, nat>): nat {
    if id in rank then rank[id] else 0
  }

  /** The comment with its replies. */
  ghost function TreeOf(pcs: seq<Comment>, c: Comment, rank: map<int64, nat>): Tree
    requires Forest(pcs, rank) && (c == ROOT || c in pcs)
    decreases if c == ROOT then 1 else 0, Height(c.id, rank), 1
  {
    Tree(c, TreesOf(pcs, c, Kids(pcs, c.id), rank))
  }

  /** The trees of some replies to a comment. */
  ghost function TreesOf(pcs: seq<Comment>, c: Comment, kids: seq<Comment>, rank: map<int64, nat>): (ts: seq<Tree>)
    requires Forest(pcs, rank) && (c == ROOT || c in pcs)
    requires forall k :: k in kids ==> k in Kids(pcs, c.id)
    ensures |ts| == |kids| && forall i :: 0 <= i < |ts| ==> ts[i].comment == kids[i]
    decreases if c == ROOT then 1 else 0, Height(c.id, rank), 0, |kids|
  {
    if kids == [] then []
    else
      KidsMembers(pcs, c.id);
      assert kids[0] in kids;
      [TreeOf(pcs, kids[0], rank)] + TreesOf(pcs, c, kids[1..], rank)
  }

  /** Children before their parent. */
  function PostOrder(t: Tree): seq<Comment>
    decreases t, 1
  {
    PostOrders(t.children) + [t.comment]
  }

  function PostOrders(ts: seq<Tree>): seq<Comment>
    decreases ts, 0
  {
    if ts == [] then [] else PostOrder(ts[0]) + PostOrders(ts[1..])
  }

  // The tree on the heap

  class Node {
    const comment: Comment
    var children: seq<Node>

    constructor (comment: Comment, children: seq<Node>)
      ensures this.comment == comment && this.children == children
    {
      this.comment, this.children := comment, children;
    }
  }

  /** The nodes are those of the given comments. */
  ghost predicate NodesOf(nodes: seq<Node>, cs: seq<Comment>, trees: map<int64, Node>) {
    |nodes| == |cs| && forall i :: 0 <= i < |cs| ==> cs[i].id in trees && nodes[i] == trees[cs[i].id]
  }

  function Get(m: map<int64, seq<Node>>, id: int64): seq<Node> {
    if id in m then m[id] else []
  }

  /** The nodes collected for a comment, under its own node or while it is not yet seen. */
  ghost function Slot(trees: map<int64, Node>, orphans: map<int64, seq<Node>>, id: int64): seq<Node>
    reads if id in trees then {trees[id]} else {}
  {
    if id in trees then trees[id].children else Get(orphans, id)
  }

  /** Every comment seen has its own node. */
  ghost predicate Known(pcs: seq<Comment>, trees: map<int64, Node>) {
    && (forall id :: id in trees <==> id == 0 || IsComment(pcs, id))
    && (forall id, jd :: id in trees && jd in trees && id != jd ==> trees[id] != trees[jd])
    && trees[0].comment == ROOT
    && (forall c :: c in pcs ==> c.id in trees && trees[c.id].comment == c)
  }

  /** The state of `buildCommentTree` after some rows: the nodes collected for a comment are those of the rows
      so far that name it; they are orphans as long as the comment has no node. */
  ghost predicate Building(pcs: seq<Comment>, trees: map<int64, Node>, orphans: map<int64, seq<Node>>)
    reads trees.Values
  {
    && Known(pcs, trees)
    && (forall id: int64 :: NodesOf(Slot(trees, orphans, id), Kids(pcs, id), trees))
    && (forall id :: id in orphans ==> id !in trees && orphans[id] != [])
  }

  lemma KnownMore(pcs: seq<Comment>, pc: Comment, trees: map<int64, Node>, node: Node)
    requires Rows(pcs + [pc]) && Known(pcs, trees) && node.comment == pc && node !in trees.Values
    ensures pc.id !in trees && Known(pcs + [pc], trees[pc.id := node])
  {
    var all := pcs + [pc];
    assert all[|pcs|] == pc;
    forall c | c in pcs ensures c in all && c.id != pc.id {
      var k :| 0 <= k < |pcs| && pcs[k] == c;
      assert all[k] == c;
    }
    forall id: int64 ensures IsComment(all, id) <==> IsComment(pcs, id) || id == pc.id {
      if IsComment(pcs, id) { var c :| c in pcs && c.id == id; assert c in all; }
    }
    assert forall id :: id in trees ==> trees[id] in trees.Values;
  }

  /** Adding a node to those of the comment it names, and to the known ones. */
  lemma NodesMore(nodes: seq<Node>, cs: seq<Comment>, trees: map<int64, Node>, pc: Comment, node: Node)
    requires NodesOf(nodes, cs, trees) && pc.id !in trees
    ensures NodesOf(nodes, cs, trees[pc.id := node])
    ensures NodesOf(nodes + [node], cs + [pc], trees[pc.id := node])
  {
  }

  lemma KidsMore(pcs: seq<Comment>, pc: Comment, id: int64)
    ensures Kids(pcs + [pc], id) == Kids(pcs, id) + if pc.parent == id then [pc] else []
  {
    assert (pcs + [pc])[..|pcs|] == pcs;
  }

  /** One round of the loop of `buildCommentTree`. */
  method AddComment(ghost pcs: seq<Comment>, pc: Comment, trees: map<int64, Node>, orphans: map<int64, seq<Node>>)
    returns (trees': map<int64, Node>, orphans': map<int64, seq<Node>>)
    requires Rows(pcs + [pc]) && Building(pcs, trees, orphans)
    modifies trees.Values
    ensures Building(pcs + [pc], trees', orphans')
    ensures fresh(trees'.Values - trees.Values)
    ensures 0 in trees' && trees'[0] == trees[0]
  {
    hide Kids, NodesOf, IsComment;
    var node := new Node(pc, Get(orphans, pc.id));
    assert node !in trees.Values;
    KnownMore(pcs, pc, trees, node);
    orphans' := orphans - {pc.id};
    trees' := trees[pc.id := node];
    if pc.parent in trees' {
      var parent := trees'[pc.parent];
      parent.children := parent.children + [node];
    } else {
      orphans' := orphans'[pc.parent := Get(orphans', pc.parent) + [node]];
    }
    assert forall id :: id in trees ==> trees[id] in trees.Values;
    forall id: int64
      ensures NodesOf(Slot(trees', orphans', id), Kids(pcs + [pc], id), trees')
    {
      assert Slot(trees', orphans', id)
             == if pc.parent == id then old(Slot(trees, orphans, id)) + [node] else old(Slot(trees, orphans, id));
      NodesMore(old(Slot(trees, orphans, id)), Kids(pcs, id), trees, pc, node);
      KidsMore(pcs, pc, id);
      assert Kids(pcs, id) + [] == Kids(pcs, id);
    }
  }

  /** `buildCommentTree`; the result None is the panic over unparented comments. */
  method BuildCommentTree(pcs: seq<Comment>) returns (r: Option<Node>, ghost trees: map<int64, Node>)
    requires Rows(pcs)
    ensures fresh(trees.Values)
    ensures r == None <==> exists c :: c in pcs && c.parent != 0 && !IsComment(pcs, c.parent)
    ensures r.Some? ==> Building(pcs, trees, map[]) && r.value == trees[0]
  {
    hide Building, IsComment;
    var nodes: map<int64, Node>, orphans: map<int64, seq<Node>> := map[], map[];
    var root := new Node(ROOT, []);
    nodes := nodes[root.comment.id := root];
    OnlyRoot(nodes, root);
    for i := 0 to |pcs|
      invariant fresh(nodes.Values)
      invariant 0 in nodes && nodes[0] == root
      invariant Building(pcs[..i], nodes, orphans)
    {
      assert pcs[..i + 1] == pcs[..i] + [pcs[i]];
      RowsPrefix(pcs, i + 1);
      nodes, orphans := AddComment(pcs[..i], pcs[i], nodes, orphans);
    }
    assert pcs[..|pcs|] == pcs;
    trees := nodes;
    KidsOfUnknown(pcs, nodes, orphans);
    if orphans != map[] {
      return None, trees;
    }
    return Some(root), trees;
  }

  lemma OnlyRoot(trees: map<int64, Node>, root: Node)
    requires trees == map[0 := root] && root.comment == ROOT && root.children == []
    ensures Building([], trees, map[])
  {
  }

  lemma RowsPrefix(pcs: seq<Comment>, n: nat)
    requires Rows(pcs) && n <= |pcs|
    ensures Rows(pcs[..n])
  {
  }

  /** Orphans are left exactly when some comment names a parent that is not there. */
  lemma KidsOfUnknown(pcs: seq<Comment>, trees: map<int64, Node>, orphans: map<int64, seq<Node>>)
    requires Building(pcs, trees, orphans)
    ensures orphans != map[] <==> exists c :: c in pcs && c.parent != 0 && !IsComment(pcs, c.parent)
  {
    if orphans != map[] {
      var id :| id in orphans;
      KidsMembers(pcs, id);
      assert Kids(pcs, id)[0] in Kids(pcs, id);
    }
    if exists c :: c in pcs && c.parent != 0 && !IsComment(pcs, c.parent) {
      var c :| c in pcs && c.parent != 0 && !IsComment(pcs, c.parent);
      KidsMembers(pcs, c.parent);
      assert c in Kids(pcs, c.parent);
      assert Get(orphans, c.parent) != [];
    }
  }

  // The nodes form the tree of the rows

  ghost predicate Represents(node: Node, t: Tree, nodes: set<Node>)
    reads nodes
    decreases t
  {
    && node in nodes && node.comment == t.comment && |node.children| == |t.children|
    && forall i :: 0 <= i < |t.children| ==> Represents(node.children[i], t.children[i], nodes)
  }

  lemma {:induction false} TreesOfAt(pcs: seq<Comment>, c: Comment, kids: seq<Comment>, rank: map<int64, nat>, i: nat)
    requires Forest(pcs, rank) && (c == ROOT || c in pcs) && i < |kids|
    requires forall k :: k in kids ==> k in Kids(pcs, c.id)
    ensures kids[i] in pcs && TreesOf(pcs, c, kids, rank)[i] == TreeOf(pcs, kids[i], rank)
  {
    hide Forest, TreeOf;
    KidsMembers(pcs, c.id);
    if i > 0 {
      TreesOfAt(pcs, c, kids[1..], rank, i - 1);
    }
  }

  /** A reply to a comment is a comment of lower rank. */
  lemma KidBelow(pcs: seq<Comment>, c: Comment, rank: map<int64, nat>, k: Comment)
    requires Forest(pcs, rank) && (c == ROOT || c in pcs) && k in Kids(pcs, c.id)
    ensures k in pcs && k != ROOT && k.parent == c.id && k.id in rank
    ensures c != ROOT ==> c.id in rank && rank[k.id] < rank[c.id]
  {
    KidsMembers(pcs, c.id);
    assert c in pcs ==> c.id != 0;
  }

  lemma {:induction false} HeapIsTree(pcs: seq<Comment>, trees: map<int64, Node>, rank: map<int64, nat>, c: Comment)
    requires Building(pcs, trees, map[]) && Forest(pcs, rank) && (c == ROOT || c in pcs)
    ensures c.id in trees && Represents(trees[c.id], TreeOf(pcs, c, rank), trees.Values)
    decreases if c == ROOT then 1 else 0, Height(c.id, rank)
  {
    hide Kids, IsComment, Forest;
    var kids, t := Kids(pcs, c.id), TreeOf(pcs, c, rank);
    assert NodesOf(Slot(trees, map[], c.id), kids, trees);
    forall i | 0 <= i < |kids| ensures Represents(trees[c.id].children[i], t.children[i], trees.Values) {
      assert kids[i] in kids;
      KidBelow(pcs, c, rank, kids[i]);
      TreesOfAt(pcs, c, kids, rank, i);
      HeapIsTree(pcs, trees, rank, kids[i]);
    }
  }

  /** `flattenPicCommentTree`, with the list that its pointer leads to. */
  method Flatten(list: seq<Comment>, node: Node, ghost t: Tree, ghost nodes: set<Node>) returns (r: seq<Comment>)
    requires Represents(node, t, nodes)
    ensures r == list + PostOrder(t)
    decreases t
  {
    r := list;
    for i := 0 to |node.children|
      invariant r == list + PostOrders(t.children[..i])
    {
      r := Flatten(r, node.children[i], t.children[i], nodes);
      PostOrdersMore(t.children[..i], t.children[i]);
      assert t.children[..i + 1] == t.children[..i] + [t.children[i]];
    }
    assert t.children[..|t.children|] == t.children;
    r := r + [node.comment];
  }

  lemma {:induction false} PostOrdersMore(ts: seq<Tree>, t: Tree)
    ensures PostOrders(ts + [t]) == PostOrders(ts) + PostOrder(t)
  {
    if ts == [] {
      assert ts + [t] == [t] && PostOrders([]) == [];
    } else {
      PostOrdersMore(ts[1..], t);
      assert (ts + [t])[0] == ts[0] && (ts + [t])[1..] == ts[1..] + [t];
    }
  }

  /** The list that `handleLookupPicDetails` sends: the flattened tree without the fake root at its end. */
  method CommentList(pcs: seq<Comment>, ghost rank: map<int64, nat>) returns (list: seq<Comment>)
    requires Forest(pcs, rank)
    ensures list == PostOrders(TreeOf(pcs, ROOT, rank).children)
  {
    hide Building, IsComment, Rows, TreesOf, Represents;
    var root, trees := BuildCommentTree(pcs);
    assert root.Some?;
    HeapIsTree(pcs, trees, rank, ROOT);
    list := Flatten([], root.value, TreeOf(pcs, ROOT, rank), trees.Values);
    assert list == PostOrders(TreeOf(pcs, ROOT, rank).children) + [ROOT];
    list := list[..|list| - 1];
  }

  // What the tree contains

  predicate Distinct(cs: seq<Comment>) {
    forall i, j :: 0 <= i < j < |cs| ==> cs[i] != cs[j]
  }

  /** The comments in the tree below a comment, itself included. */
  ghost function Sub(pcs: seq<Comment>, c: Comment, rank: map<int64, nat>): seq<Comment>
    requires Forest(pcs, rank) && (c == ROOT || c in pcs)
  {
    PostOrder(TreeOf(pcs, c, rank))
  }

  lemma {:induction false} InPostOrders(ts: seq<Tree>, e: Comment)
    ensures e in PostOrders(ts) <==> exists i :: 0 <= i < |ts| && e in PostOrder(ts[i])
  {
    if ts != [] {
      InPostOrders(ts[1..], e);
      forall i | 0 <= i < |ts[1..]| ensures ts[i + 1] == ts[1..][i] {
      }
      assert forall i :: 0 < i < |ts| ==> ts[i] == ts[1..][i - 1];
    }
  }

  /** A comment is in the tree below c when it is c, or in the tree below a reply to c. */
  lemma InSub(pcs: seq<Comment>, c: Comment, rank: map<int64, nat>, e: Comment)
    requires Forest(pcs, rank) && (c == ROOT || c in pcs)
    ensures forall k :: k in Kids(pcs, c.id) ==> k in pcs
    ensures e in Sub(pcs, c, rank) <==> e == c || exists k :: k in Kids(pcs, c.id) && e in Sub(pcs, k, rank)
  {
    hide Kids, Forest;
    var kids, ts := Kids(pcs, c.id), TreeOf(pcs, c, rank).children;
    KidsMembers(pcs, c.id);
    InPostOrders(ts, e);
    forall i | 0 <= i < |kids| ensures kids[i] in kids && ts[i] == TreeOf(pcs, kids[i], rank) {
      TreesOfAt(pcs, c, kids, rank, i);
    }
  }

  lemma {:induction false} SubBelow(pcs: seq<Comment>, c: Comment, rank: map<int64, nat>, e: Comment)
    requires Forest(pcs, rank) && (c == ROOT || c in pcs) && e in Sub(pcs, c, rank)
    ensures e == c || (e in pcs && e != ROOT && e.id in rank)
    ensures e != c && c != ROOT ==> c.id in rank && rank[e.id] < rank[c.id]
    decreases if c == ROOT then 1 else 0, Height(c.id, rank)
  {
    hide Sub, Kids;
    InSub(pcs, c, rank, e);
    if e != c {
      var k :| k in Kids(pcs, c.id) && e in Sub(pcs, k, rank);
      KidBelow(pcs, c, rank, k);
      SubBelow(pcs, k, rank, e);
    }
  }

  ghost predicate ParentIs(pcs: seq<Comment>, e: Comment, p: Comment) {
    e in pcs && p.id == e.parent && (p == ROOT || p in pcs)
  }

  /** Every comment has one parent. */
  lemma ParentOf(pcs: seq<Comment>, rank: map<int64, nat>, e: Comment) returns (p: Comment)
    requires Forest(pcs, rank) && e in pcs
    ensures ParentIs(pcs, e, p) && e in Kids(pcs, p.id)
    ensures p != ROOT ==> p.id in rank && e.id in rank && rank[e.id] < rank[p.id]
  {
    if e.parent == 0 {
      p := ROOT;
    } else {
      p :| p in pcs && p.id == e.parent;
    }
    KidsMembers(pcs, p.id);
  }

  lemma OneParent(pcs: seq<Comment>, rank: map<int64, nat>, e: Comment, p: Comment, q: Comment)
    requires Forest(pcs, rank) && ParentIs(pcs, e, p) && ParentIs(pcs, e, q)
    ensures p == q
  {
    if p in pcs && q in pcs {
      var i :| 0 <= i < |pcs| && pcs[i] == p;
      var j :| 0 <= j < |pcs| && pcs[j] == q;
    }
  }

  lemma {:induction false} ParentInSub(pcs: seq<Comment>, c: Comment, rank: map<int64, nat>, e: Comment, p: Comment)
    requires Forest(pcs, rank) && (c == ROOT || c in pcs)
    requires e in Sub(pcs, c, rank) && e != c && ParentIs(pcs, e, p)
    ensures p in Sub(pcs, c, rank)
    decreases if c == ROOT then 1 else 0, Height(c.id, rank)
  {
    hide Sub, Kids, Forest;
    InSub(pcs, c, rank, e);
    InSub(pcs, c, rank, p);
    var k :| k in Kids(pcs, c.id) && e in Sub(pcs, k, rank);
    KidBelow(pcs, c, rank, k);
    if e == k {
      OneParent(pcs, rank, e, p, c);
    } else {
      ParentInSub(pcs, k, rank, e, p);
    }
  }

  lemma {:induction false} KidInSub(pcs: seq<Comment>, c: Comment, rank: map<int64, nat>, p: Comment, e: Comment)
    requires Forest(pcs, rank) && (c == ROOT || c in pcs)
    requires p in Sub(pcs, c, rank) && e in Kids(pcs, p.id)
    ensures e in Sub(pcs, c, rank)
    decreases if c == ROOT then 1 else 0, Height(c.id, rank)
  {
    hide Sub, Kids, Forest;
    InSub(pcs, c, rank, p);
    InSub(pcs, c, rank, e);
    if p == c {
      KidBelow(pcs, c, rank, e);
      InSub(pcs, e, rank, e);
    } else {
      var k :| k in Kids(pcs, c.id) && p in Sub(pcs, k, rank);
      KidBelow(pcs, c, rank, k);
      KidInSub(pcs, k, rank, p, e);
    }
  }

  ghost predicate Bounded(rank: map<int64, nat>, bound: nat) {
    forall id :: id in rank ==> rank[id] < bound
  }

  lemma {:induction false} RankBound(rank: map<int64, nat>) returns (bound: nat)
    ensures Bounded(rank, bound)
    decreases |rank|
  {
    if rank == map[] {
      bound := 0;
    } else {
      var id :| id in rank;
      var rest := rank - {id};
      assert rest.Keys == rank.Keys - {id};
      bound := RankBound(rest);
      bound := if bound <= rank[id] then rank[id] + 1 else bound;
      assert forall jd :: jd in rank ==> jd == id || (jd in rest && rest[jd] == rank[jd]);
    }
  }

  /** Every comment is below the root. */
  lemma {:induction false} BelowRoot(pcs: seq<Comment>, rank: map<int64, nat>, bound: nat, e: Comment)
    requires Forest(pcs, rank) && Bounded(rank, bound) && e in pcs
    ensures e in Sub(pcs, ROOT, rank)
    decreases bound - Height(e.id, rank)
  {
    hide Sub, Kids;
    var p := ParentOf(pcs, rank, e);
    if p == ROOT {
      InSub(pcs, ROOT, rank, ROOT);
    } else {
      BelowRoot(pcs, rank, bound, p);
    }
    KidInSub(pcs, ROOT, rank, p, e);
  }

  /** The trees below two replies to one comment have nothing in common. */
  lemma {:induction false} Apart(pcs: seq<Comment>, rank: map<int64, nat>, bound: nat, c: Comment, k: Comment,
                                 l: Comment, e: Comment)
    requires Forest(pcs, rank) && Bounded(rank, bound) && (c == ROOT || c in pcs)
    requires k in Kids(pcs, c.id) && l in Kids(pcs, c.id) && k != l && k in pcs && l in pcs
    ensures !(e in Sub(pcs, k, rank) && e in Sub(pcs, l, rank))
    decreases bound - Height(e.id, rank)
  {
    hide Sub, Kids;
    if e in Sub(pcs, k, rank) && e in Sub(pcs, l, rank) {
      SubBelow(pcs, k, rank, e);
      KidBelow(pcs, c, rank, k);
      KidBelow(pcs, c, rank, l);
      if e == k {
        ParentInSub(pcs, l, rank, e, c);
        SubBelow(pcs, l, rank, c);
      } else if e == l {
        ParentInSub(pcs, k, rank, e, c);
        SubBelow(pcs, k, rank, c);
      } else {
        var p := ParentOf(pcs, rank, e);
        ParentInSub(pcs, k, rank, e, p);
        ParentInSub(pcs, l, rank, e, p);
        SubBelow(pcs, k, rank, p);
        Apart(pcs, rank, bound, c, k, l, p);
      }
    }
  }

  lemma {:induction false} KidsDistinct(pcs: seq<Comment>, id: int64)
    requires Rows(pcs)
    ensures Distinct(Kids(pcs, id))
  {
    if pcs != [] {
      var n := |pcs| - 1;
      KidsDistinct(pcs[..n], id);
      KidsMembers(pcs[..n], id);
      var front := Kids(pcs[..n], id);
      forall i | 0 <= i < |front| ensures front[i] != pcs[n] {
        assert front[i] in pcs[..n];
        var k :| 0 <= k < n && pcs[..n][k] == front[i];
      }
    }
  }

  lemma DistinctConcat(a: seq<Comment>, b: seq<Comment>)
    requires Distinct(a) && Distinct(b) && forall e :: !(e in a && e in b)
    ensures Distinct(a + b)
  {
    forall i, j | 0 <= i < j < |a + b| ensures (a + b)[i] != (a + b)[j] {
      if i < |a| <= j { assert a[i] in a && b[j - |a|] in b; }
    }
  }

  /** No comment occurs twice below another. */
  lemma {:induction false} SubDistinct(pcs: seq<Comment>, c: Comment, rank: map<int64, nat>, bound: nat)
    requires Forest(pcs, rank) && Bounded(rank, bound) && (c == ROOT || c in pcs)
    ensures Distinct(Sub(pcs, c, rank))
    decreases if c == ROOT then 1 else 0, Height(c.id, rank), 1, 0
  {
    KidsDistinct(pcs, c.id);
    hide Kids, Forest, Bounded, Distinct;
    var kids := Kids(pcs, c.id);
    SubsDistinct(pcs, c, kids, rank, bound);
    var front := PostOrders(TreesOf(pcs, c, kids, rank));
    assert Sub(pcs, c, rank) == front + [c];
    forall e | e in front && e in [c] ensures false {
      InSubs(pcs, c, kids, rank, e);
      var k :| k in kids && k in pcs && e in Sub(pcs, k, rank);
      KidBelow(pcs, c, rank, k);
      SubBelow(pcs, k, rank, e);
    }
    assert Distinct([c]) by { OneDistinct(c); }
    DistinctConcat(front, [c]);
  }

  lemma OneDistinct(c: Comment)
    ensures Distinct([c]) && Distinct([])
  {
  }

  lemma InSubs(pcs: seq<Comment>, c: Comment, kids: seq<Comment>, rank: map<int64, nat>, e: Comment)
    requires Forest(pcs, rank) && (c == ROOT || c in pcs) && forall k :: k in kids ==> k in Kids(pcs, c.id)
    ensures e in PostOrders(TreesOf(pcs, c, kids, rank)) ==> exists k :: k in kids && k in pcs && e in Sub(pcs, k, rank)
  {
    hide Kids, Forest;
    var ts := TreesOf(pcs, c, kids, rank);
    InPostOrders(ts, e);
    forall i | 0 <= i < |kids| ensures kids[i] in kids && kids[i] in pcs && ts[i] == TreeOf(pcs, kids[i], rank) {
      TreesOfAt(pcs, c, kids, rank, i);
    }
  }

  lemma {:induction false} SubsDistinct(pcs: seq<Comment>, c: Comment, kids: seq<Comment>, rank: map<int64, nat>,
                                        bound: nat)
    requires Forest(pcs, rank) && Bounded(rank, bound) && (c == ROOT || c in pcs)
    requires (forall k :: k in kids ==> k in Kids(pcs, c.id)) && Distinct(kids)
    ensures Distinct(PostOrders(TreesOf(pcs, c, kids, rank)))
    decreases if c == ROOT then 1 else 0, Height(c.id, rank), 0, |kids|
  {
    hide Kids, Bounded;
    if kids == [] {
      OneDistinct(c);
    } else {
      var k, rest := kids[0], kids[1..];
      assert k in kids;
      KidBelow(pcs, c, rank, k);
      SubDistinct(pcs, k, rank, bound);
      SubsDistinct(pcs, c, rest, rank, bound);
      forall e | e in Sub(pcs, k, rank) && e in PostOrders(TreesOf(pcs, c, rest, rank)) ensures false {
        InSubs(pcs, c, rest, rank, e);
        var l :| l in rest && l in pcs && e in Sub(pcs, l, rank);
        Apart(pcs, rank, bound, c, k, l, e);
      }
      DistinctConcat(Sub(pcs, k, rank), PostOrders(TreesOf(pcs, c, rest, rank)));
    }
  }

  lemma {:induction false} SameMultiset(a: seq<Comment>, b: seq<Comment>)
    requires Distinct(a) && Distinct(b) && forall e :: e in a <==> e in b
    ensures multiset(a) == multiset(b)
  {
    forall e ensures multiset(a)[e] == multiset(b)[e] {
      OnceInMultiset(a, e);
      OnceInMultiset(b, e);
    }
  }

  // The main results

  /** On a forest the list that is sent holds each comment once and nothing else. */
  lemma ListComplete(pcs: seq<Comment>, rank: map<int64, nat>)
    requires Forest(pcs, rank)
    ensures multiset(PostOrders(TreeOf(pcs, ROOT, rank).children)) == multiset(pcs)
  {
    hide Kids, TreesOf;
    var list := PostOrders(TreeOf(pcs, ROOT, rank).children);
    var bound := RankBound(rank);
    SubDistinct(pcs, ROOT, rank, bound);
    assert Sub(pcs, ROOT, rank) == list + [ROOT];
    forall i, j | 0 <= i < j < |list + [ROOT]| ensures (list + [ROOT])[i] != (list + [ROOT])[j] {
    }
    assert Distinct(list) by { assert forall i :: 0 <= i < |list| ==> list[i] == (list + [ROOT])[i]; }
    forall e ensures e in list <==> e in pcs {
      if e in pcs { BelowRoot(pcs, rank, bound, e); }
      if e in list {
        var i :| 0 <= i < |list| && list[i] == e;
        assert (list + [ROOT])[i] == e && (list + [ROOT])[|list|] == ROOT;
        SubBelow(pcs, ROOT, rank, e);
      }
    }
    SameMultiset(list, pcs);
  }

  /** Each node of the tree has as children exactly the rows that name it, in input order. */
  lemma ChildrenAreKids(pcs: seq<Comment>, c: Comment, rank: map<int64, nat>, i: nat)
    requires Forest(pcs, rank) && (c == ROOT || c in pcs) && i < |Kids(pcs, c.id)|
    ensures var t := TreeOf(pcs, c, rank);
            && t.comment == c && |t.children| == |Kids(pcs, c.id)|
            && Kids(pcs, c.id)[i] in pcs && t.children[i] == TreeOf(pcs, Kids(pcs, c.id)[i], rank)
  {
    hide Forest;
    TreesOfAt(pcs, c, Kids(pcs, c.id), rank, i);
  }
}
