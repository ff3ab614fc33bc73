/** Facts about sequences that the pagers and the tables of rows share. */
module Lists {
  /** The elements that pass a test, in order. */
  function Select<T>(s: seq<T>, keep: T -> bool): (r: seq<T>)
    ensures |r| <= |s|
  {
    if s == [] then []
    else Select(s[..|s| - 1], keep) + if keep(s[|s| - 1]) then [s[|s| - 1]] else []
  }

  lemma {:induction false} SelectMembers<T>(s: seq<T>, keep: T -> bool, e: T)
    ensures e in Select(s, keep) <==> e in s && keep(e)
  {
    if s != [] {
      var n := |s| - 1;
      SelectMembers(s[..n], keep, e);
      assert s == s[..n] + [s[n]];
    }
  }

  lemma {:induction false} SelectConcat<T>(a: seq<T>, b: seq<T>, keep: T -> bool)
    ensures Select(a + b, keep) == Select(a, keep) + Select(b, keep)
  {
    if b == [] {
      assert a + b == a;
    } else {
      var n := |a + b| - 1;
      assert (a + b)[..n] == a + b[..|b| - 1] && (a + b)[n] == b[|b| - 1];
      SelectConcat(a, b[..|b| - 1], keep);
    }
  }

  /** What the first k elements give, and the rest. */
  lemma SelectSplit<T>(s: seq<T>, keep: T -> bool, k: nat)
    requires k <= |s|
    ensures Select(s, keep) == Select(s[..k], keep) + Select(s[k..], keep)
  {
    hide Select;
    assert s[..k] + s[k..] == s;
    SelectConcat(s[..k], s[k..], keep);
  }

  ghost predicate Ascending<T>(s: seq<T>, less: (T, T) -> bool) {
    forall i, j :: 0 <= i < j < |s| ==> less(s[i], s[j])
  }

  lemma {:induction false} SelectAscending<T>(s: seq<T>, keep: T -> bool, less: (T, T) -> bool)
    requires Ascending(s, less)
    ensures Ascending(Select(s, keep), less)
  {
    if s != [] {
      var n := |s| - 1;
      var front := Select(s[..n], keep);
      SelectAscending(s[..n], keep, less);
      forall i | 0 <= i < |front| ensures less(front[i], s[n]) {
        SelectMembers(s[..n], keep, front[i]);
        var k :| 0 <= k < n && s[..n][k] == front[i];
        assert s[k] == front[i];
      }
    }
  }

  /** What passes a narrower test can be selected from what passes a wider one. */
  lemma {:induction false} SelectNarrow<T>(s: seq<T>, wide: T -> bool, narrow: T -> bool)
    requires forall i :: 0 <= i < |s| && narrow(s[i]) ==> wide(s[i])
    ensures Select(s, narrow) == Select(Select(s, wide), narrow)
  {
    if s != [] {
      var n := |s| - 1;
      SelectNarrow(s[..n], wide, narrow);
      SelectConcat(Select(s[..n], wide), if wide(s[n]) then [s[n]] else [], narrow);
      SelectOne(s[n], narrow);
    }
  }

  lemma SelectOne<T>(e: T, keep: T -> bool)
    ensures Select([e], keep) == if keep(e) then [e] else []
  {
    assert [e][..0] == [];
  }

  lemma {:induction false} SelectAll<T>(s: seq<T>, keep: T -> bool)
    requires forall i :: 0 <= i < |s| ==> keep(s[i])
    ensures Select(s, keep) == s
  {
    if s != [] { SelectAll(s[..|s| - 1], keep); }
  }

  lemma {:induction false} SelectFull<T>(s: seq<T>, keep: T -> bool)
    ensures |Select(s, keep)| == |s| <==> forall i :: 0 <= i < |s| ==> keep(s[i])
  {
    if s != [] {
      var n := |s| - 1;
      SelectFull(s[..n], keep);
      assert forall i :: 0 <= i < n ==> s[..n][i] == s[i];
    }
  }

  lemma {:induction false} SelectNone<T>(s: seq<T>, keep: T -> bool)
    requires forall i :: 0 <= i < |s| ==> !keep(s[i])
    ensures Select(s, keep) == []
  {
    if s != [] { SelectNone(s[..|s| - 1], keep); }
  }

  /** Two tests that agree on the elements select the same. */
  lemma {:induction false} SelectSame<T>(s: seq<T>, keep: T -> bool, other: T -> bool)
    requires forall i :: 0 <= i < |s| ==> keep(s[i]) == other(s[i])
    ensures Select(s, keep) == Select(s, other)
  {
    if s != [] { SelectSame(s[..|s| - 1], keep, other); }
  }

  /** A test that the k-th to the m-th element pass, and no other, gives a slice. */
  lemma SelectSlice<T>(s: seq<T>, keep: T -> bool, k: nat, m: nat)
    requires k <= m <= |s|
    requires forall i :: 0 <= i < |s| ==> (keep(s[i]) <==> k <= i < m)
    ensures Select(s, keep) == s[k..m]
  {
    hide Select;
    SelectSplit(s, keep, m);
    SelectSplit(s[..m], keep, k);
    SelectNone(s[..m][..k], keep);
    SelectAll(s[..m][k..], keep);
    SelectNone(s[m..], keep);
  }

  /** A test that only elements at the front pass: as many as are selected. */
  lemma SelectFront<T>(s: seq<T>, keep: T -> bool)
    requires forall i, j :: 0 <= i < j < |s| && keep(s[j]) ==> keep(s[i])
    ensures forall i :: 0 <= i < |s| ==> (keep(s[i]) <==> i < |Select(s, keep)|)
  {
    hide Select;
    var k := FrontLength(s, keep);
    SelectSlice(s, keep, 0, k);
  }

  function FrontLength<T>(s: seq<T>, keep: T -> bool): (k: nat)
    requires forall i, j :: 0 <= i < j < |s| && keep(s[j]) ==> keep(s[i])
    ensures k <= |s| && forall i :: 0 <= i < |s| ==> (keep(s[i]) <==> i < k)
  {
    if s == [] then 0
    else if keep(s[|s| - 1]) then |s|
    else FrontLength(s[..|s| - 1], keep)
  }

  function Reverse<T>(s: seq<T>): (r: seq<T>)
    ensures |r| == |s| && forall i :: 0 <= i < |s| ==> r[i] == s[|s| - 1 - i]
  {
    seq(|s|, i requires 0 <= i < |s| => s[|s| - 1 - i])
  }

  lemma ReverseMembers<T>(s: seq<T>, e: T)
    ensures e in Reverse(s) <==> e in s
  {
    if e in s {
      var i :| 0 <= i < |s| && s[i] == e;
      assert Reverse(s)[|s| - 1 - i] == e;
    }
  }

  lemma ReverseAt<T>(s: seq<T>, i: nat)
    requires i < |s|
    ensures |Reverse(s)| == |s| && Reverse(s)[|s| - 1 - i] == s[i]
  {
  }

  lemma ReverseTwice<T>(s: seq<T>)
    ensures Reverse(Reverse(s)) == s
  {
  }

  lemma ReverseSlices<T>(s: seq<T>, k: nat)
    requires k <= |s|
    ensures Reverse(s)[k..] == Reverse(s[..|s| - k])
    ensures Reverse(s)[..k] == Reverse(s[|s| - k..])
  {
  }

  lemma {:induction false} SelectReverse<T>(s: seq<T>, keep: T -> bool)
    ensures Select(Reverse(s), keep) == Reverse(Select(s, keep))
  {
    if s != [] {
      var n := |s| - 1;
      SelectReverse(s[..n], keep);
      assert Reverse(s) == [s[n]] + Reverse(s[..n]);
      SelectConcat([s[n]], Reverse(s[..n]), keep);
      SelectOne(s[n], keep);
    }
  }

  /** LIMIT, where zero is no limit. */
  function Limited<T>(s: seq<T>, limit: nat): seq<T> {
    if 0 < limit < |s| then s[..limit] else s
  }

  /** The first n elements, or all. */
  function First<T>(s: seq<T>, n: nat): seq<T> {
    if n < |s| then s[..n] else s
  }

  lemma SliceFrom<T>(s: seq<T>, k: nat, m: nat, n: nat)
    requires n < m && k + n < |s|
    ensures First(s[k..], m)[..n] == s[k..k + n] && First(s[k..], m)[n] == s[k + n]
  {
  }

  lemma SlicesJoin<T>(s: seq<T>, i: nat, j: nat, k: nat)
    requires i <= j <= k <= |s|
    ensures s[i..j] + s[j..k] == s[i..k]
  {
  }

  // Counting

  lemma MultisetRemove<T>(s: seq<T>, i: nat)
    requires i < |s|
    ensures multiset(s[..i] + s[i + 1..]) == multiset(s) - multiset{s[i]}
  {
    assert s == s[..i] + ([s[i]] + s[i + 1..]);
  }

  lemma CountRemove<T>(s: seq<T>, i: nat, keep: T -> bool)
    requires i < |s|
    ensures |Select(s, keep)| == |Select(s[..i] + s[i + 1..], keep)| + if keep(s[i]) then 1 else 0
  {
    hide Select;
    assert s == s[..i] + ([s[i]] + s[i + 1..]);
    SelectConcat(s[..i], [s[i]] + s[i + 1..], keep);
    SelectConcat([s[i]], s[i + 1..], keep);
    SelectConcat(s[..i], s[i + 1..], keep);
    SelectOne(s[i], keep);
  }

  /** How many pass a test does not depend on the order. */
  lemma {:induction false} CountPermute<T>(a: seq<T>, b: seq<T>, keep: T -> bool)
    requires multiset(a) == multiset(b)
    ensures |Select(a, keep)| == |Select(b, keep)|
    decreases |a|
  {
    hide Select;
    SameLength(a, b);
    if a != [] {
      assert a[0] in multiset(b);
      var i :| 0 <= i < |b| && b[i] == a[0];
      CountRemove(a, 0, keep);
      CountRemove(b, i, keep);
      MultisetRemove(a, 0);
      MultisetRemove(b, i);
      CountPermute(a[..0] + a[1..], b[..i] + b[i + 1..], keep);
    }
  }

  lemma SameLength<T>(a: seq<T>, b: seq<T>)
    requires multiset(a) == multiset(b)
    ensures |a| == |b|
  {
    assert |a| == |multiset(a)| && |b| == |multiset(b)|;
  }

  /** The positions at which a test is passed. */
  function Places<T>(s: seq<T>, keep: T -> bool): set<int> {
    set i | 0 <= i < |s| && keep(s[i])
  }

  lemma {:induction false} SelectPlaces<T>(s: seq<T>, keep: T -> bool)
    ensures |Select(s, keep)| == |Places(s, keep)|
  {
    if s == [] {
      assert Places(s, keep) == {};
    } else {
      var n := |s| - 1;
      SelectPlaces(s[..n], keep);
      assert Places(s, keep) == Places(s[..n], keep) + if keep(s[n]) then {n} else {};
    }
  }

  lemma {:induction false} OnceInMultiset<T>(s: seq<T>, e: T)
    requires forall i, j :: 0 <= i < j < |s| ==> s[i] != s[j]
    ensures multiset(s)[e] == if e in s then 1 else 0
  {
    if s != [] {
      OnceInMultiset(s[1..], e);
      assert s == [s[0]] + s[1..];
    }
  }

  lemma TwiceInMultiset<T>(s: seq<T>, i: nat, j: nat)
    requires i < j < |s| && s[i] == s[j]
    ensures multiset(s)[s[i]] >= 2
  {
    assert s == s[..i] + [s[i]] + s[i + 1..j] + [s[j]] + s[j + 1..];
  }

  // Sorting, by insertion, where `first(a, b)` lets `a` come before `b`

  function Insert<T>(s: seq<T>, x: T, first: (T, T) -> bool): seq<T> {
    if s == [] || first(x, s[0]) then [x] + s else [s[0]] + Insert(s[1..], x, first)
  }

  function Sort<T>(s: seq<T>, first: (T, T) -> bool): seq<T> {
    if s == [] then [] else Insert(Sort(s[1..], first), s[0], first)
  }

  lemma {:induction false} InsertKeeps<T>(s: seq<T>, x: T, first: (T, T) -> bool)
    ensures multiset(Insert(s, x, first)) == multiset(s) + multiset{x}
  {
    if !(s == [] || first(x, s[0])) {
      InsertKeeps(s[1..], x, first);
      var more := Insert(s[1..], x, first);
      assert s == [s[0]] + s[1..] && Insert(s, x, first) == [s[0]] + more;
      hide Insert;
      assert multiset([s[0]] + more) == multiset{s[0]} + multiset(more);
    }
  }

  lemma {:induction false} SortKeeps<T>(s: seq<T>, first: (T, T) -> bool)
    ensures multiset(Sort(s, first)) == multiset(s) && |Sort(s, first)| == |s|
  {
    if s != [] {
      SortKeeps(s[1..], first);
      InsertKeeps(Sort(s[1..], first), s[0], first);
      assert s == [s[0]] + s[1..];
    }
    SameLength(Sort(s, first), s);
  }

  lemma InsertMembers<T>(s: seq<T>, x: T, first: (T, T) -> bool, e: T)
    ensures e in Insert(s, x, first) <==> e in s || e == x
  {
    hide Insert;
    InsertKeeps(s, x, first);
    assert e in Insert(s, x, first) <==> e in multiset(Insert(s, x, first));
    assert e in s <==> e in multiset(s);
  }

  lemma SortMembers<T>(s: seq<T>, first: (T, T) -> bool, e: T)
    ensures e in Sort(s, first) <==> e in s
  {
    hide Sort;
    SortKeeps(s, first);
    assert e in Sort(s, first) <==> e in multiset(Sort(s, first));
    assert e in s <==> e in multiset(s);
  }

  ghost predicate Transitive<T(!new)>(first: (T, T) -> bool) {
    forall a, b, c :: first(a, b) && first(b, c) ==> first(a, c)
  }

  lemma {:induction false} InsertAscending<T(!new)>(s: seq<T>, x: T, first: (T, T) -> bool)
    requires Transitive(first) && Ascending(s, first) && forall i :: 0 <= i < |s| ==> first(x, s[i]) || first(s[i], x)
    ensures Ascending(Insert(s, x, first), first)
  {
    if !(s == [] || first(x, s[0])) {
      InsertAscending(s[1..], x, first);
      var rest := Insert(s[1..], x, first);
      forall i | 0 <= i < |rest| ensures first(s[0], rest[i]) {
        InsertMembers(s[1..], x, first, rest[i]);
        if rest[i] != x {
          var k :| 0 <= k < |s[1..]| && s[1..][k] == rest[i];
          assert s[k + 1] == rest[i];
        }
      }
    }
  }

  /** Any two elements can be told apart, or do not need to. */
  ghost predicate Comparable<T>(s: seq<T>, first: (T, T) -> bool) {
    forall i, j :: 0 <= i < j < |s| ==> first(s[i], s[j]) || first(s[j], s[i])
  }

  lemma {:induction false} SortAscending<T(!new)>(s: seq<T>, first: (T, T) -> bool)
    requires Transitive(first) && Comparable(s, first)
    ensures Ascending(Sort(s, first), first)
  {
    if s != [] {
      SortAscending(s[1..], first);
      var rest := Sort(s[1..], first);
      forall i | 0 <= i < |rest| ensures first(s[0], rest[i]) || first(rest[i], s[0]) {
        SortMembers(s[1..], first, rest[i]);
        var k :| 0 <= k < |s[1..]| && s[1..][k] == rest[i];
        assert s[k + 1] == rest[i];
      }
      InsertAscending(rest, s[0], first);
    }
  }

  /** Elements that cannot be told apart are alike in what comes before them. */
  ghost predicate WeakOrder<T(!new)>(less: (T, T) -> bool) {
    && (forall a, b :: less(a, b) ==> !less(b, a))
    && forall a, b, c :: less(a, b) ==> less(a, c) || less(c, b)
  }

  ghost predicate NoneBefore<T>(s: seq<T>, less: (T, T) -> bool) {
    forall i, k :: 0 <= i < k < |s| ==> !less(s[k], s[i])
  }

  lemma {:induction false} InsertNoneBefore<T(!new)>(s: seq<T>, x: T, less: (T, T) -> bool)
    requires WeakOrder(less) && NoneBefore(s, less)
    ensures NoneBefore(Insert(s, x, less), less)
  {
    if !(s == [] || less(x, s[0])) {
      InsertNoneBefore(s[1..], x, less);
      var rest := Insert(s[1..], x, less);
      forall i | 0 <= i < |rest| ensures !less(rest[i], s[0]) {
        InsertMembers(s[1..], x, less, rest[i]);
        if rest[i] != x {
          var k :| 0 <= k < |s[1..]| && s[1..][k] == rest[i];
          assert s[k + 1] == rest[i];
        }
      }
    }
  }

  /** No element comes before one that is sorted in front of it. */
  lemma {:induction false} SortNoneBefore<T(!new)>(s: seq<T>, less: (T, T) -> bool)
    requires WeakOrder(less)
    ensures NoneBefore(Sort(s, less), less)
  {
    if s != [] {
      SortNoneBefore(s[1..], less);
      InsertNoneBefore(Sort(s[1..], less), s[0], less);
    }
  }
}
