/** Changing a user's capabilities: the form (`diffcaps`, fe/handlers/user.go) and the task
    (be/tasks/update_user_task.go). */
module Capabilities {
  import opened CapSet
  import opened Lists
  import opened Prelude

  datatype CapError = Duplicate | NotInOld | Leftover | UnknownCap | Overlap

  // `diffcaps`

  /** The capabilities of a form, marked yes or no; an error when one is there twice. */
  method MarkCaps(yes: seq<int32>, no: seq<int32>) returns (m: Option<map<int32, bool>>)
    ensures m == None <==> !Unique(yes + no)
    ensures m.Some? ==> forall c :: c in m.value <==> c in Elements(yes) || c in Elements(no)
    ensures m.Some? ==> forall c :: c in m.value ==> m.value[c] == (c in Elements(yes))
  {
    hide Elements, Unique;
    var marks: map<int32, bool> := map[];
    NoElements();
    for i := 0 to |yes|
      invariant forall c :: c in marks <==> c in Elements(yes[..i])
      invariant forall c :: c in marks ==> marks[c]
      invariant Unique(yes[..i])
    {
      assert yes[..i + 1] == yes[..i] + [yes[i]] && yes + no == yes[..i] + [yes[i]] + (yes[i + 1..] + no);
      ElementsMore(yes[..i], yes[i]);
      if yes[i] in marks {
        Twice(yes[..i], yes[i], yes[i + 1..] + no);
        return None;
      }
      UniqueMore(yes[..i], yes[i]);
      marks := marks[yes[i] := true];
    }
    assert yes[..|yes|] == yes && yes + no[..0] == yes;
    for i := 0 to |no|
      invariant forall c :: c in marks <==> c in Elements(yes) || c in Elements(no[..i])
      invariant forall c :: c in marks ==> marks[c] == (c in Elements(yes))
      invariant Unique(yes + no[..i])
    {
      assert yes + no[..i + 1] == yes + no[..i] + [no[i]] && yes + no == yes + no[..i] + [no[i]] + no[i + 1..];
      assert no[..i + 1] == no[..i] + [no[i]];
      ElementsMore(no[..i], no[i]);
      ElementsConcat(yes, no[..i]);
      if no[i] in marks {
        Twice(yes + no[..i], no[i], no[i + 1..]);
        return None;
      }
      UniqueMore(yes + no[..i], no[i]);
      marks := marks[no[i] := false];
    }
    assert no[..|no|] == no;
    return Some(marks);
  }

  lemma Twice(a: seq<int32>, c: int32, b: seq<int32>)
    requires c in Elements(a)
    ensures !Unique(a + [c] + b)
  {
    var i :| 0 <= i < |a| && a[i] == c;
    assert (a + [c] + b)[i] == (a + [c] + b)[|a|];
  }

  /** What is said of the capabilities seen so far in the new form. */
  ghost predicate InOneOnly(caps: seq<int32>, seen: set<int32>, into: map<int32, bool>, outOf: map<int32, bool>) {
    Unique(caps) && forall c: int32 :: c in Elements(caps) <==> c in seen && c in into && c in outOf && into[c] && !outOf[c]
  }

  lemma SortedMore(caps: seq<int32>, seen: set<int32>, into: map<int32, bool>, outOf: map<int32, bool>, c: int32)
    requires InOneOnly(caps, seen, into, outOf) && c !in seen && c in into && c in outOf
    ensures InOneOnly(if into[c] && !outOf[c] then caps + [c] else caps, seen + {c}, into, outOf)
  {
    hide Elements, Unique;
    ElementsMore(caps, c);
    if into[c] && !outOf[c] {
      UniqueMore(caps, c);
    }
  }

  /** The second half of `diffcaps`. */
  method Diff(olds: map<int32, bool>, news: map<int32, bool>) returns (r: Result<(seq<int32>, seq<int32>), CapError>)
    ensures r.Ok? <==> olds.Keys == news.Keys
    ensures r.Err? ==> r.error in {NotInOld, Leftover}
    ensures r.Ok? ==> InOneOnly(r.value.0, news.Keys, news, olds) && InOneOnly(r.value.1, news.Keys, olds, news)
  {
    hide InOneOnly;
    var oldMap := olds;
    var add: seq<int32>, remove: seq<int32> := [], [];
    var rest := news.Keys;
    ghost var seen: set<int32> := {};
    NoneSorted(news, olds);
    NoneSorted(olds, news);
    while rest != {}
      invariant rest + seen == news.Keys && rest !! seen && seen <= olds.Keys
      invariant oldMap == olds - seen
      invariant InOneOnly(add, seen, news, olds) && InOneOnly(remove, seen, olds, news)
      decreases |rest|
    {
      var c :| c in rest;
      if c !in oldMap {
        return Err(NotInOld);
      }
      SortedMore(add, seen, news, olds, c);
      SortedMore(remove, seen, olds, news, c);
      TakenOut(olds, seen, c);
      var oldEnabled := oldMap[c];
      oldMap := oldMap - {c};
      if news[c] && !oldEnabled {
        add := add + [c];
      } else if !news[c] && oldEnabled {
        remove := remove + [c];
      }
      rest := rest - {c};
      seen := seen + {c};
    }
    assert seen == news.Keys;
    if |oldMap| != 0 {
      SomethingLeft(olds, seen);
      return Err(Leftover);
    }
    NothingLeft(olds, seen);
    return Ok((add, remove));
  }

  lemma TakenOut(olds: map<int32, bool>, seen: set<int32>, c: int32)
    requires c in olds - seen
    ensures c in olds && c !in seen && (olds - seen)[c] == olds[c]
    ensures (olds - seen) - {c} == olds - (seen + {c})
  {
  }

  lemma SomethingLeft(olds: map<int32, bool>, seen: set<int32>)
    requires |olds - seen| != 0
    ensures olds.Keys != seen
  {
    assert |(olds - seen).Keys| != 0;
    var c :| c in (olds - seen).Keys;
  }

  lemma NothingLeft(olds: map<int32, bool>, seen: set<int32>)
    requires |olds - seen| == 0 && seen <= olds.Keys
    ensures olds.Keys == seen
  {
    assert olds - seen == map[];
    forall c | c in olds ensures c in seen {
      assert c in seen || c in olds - seen;
    }
  }

  lemma NoneSorted(into: map<int32, bool>, outOf: map<int32, bool>)
    ensures InOneOnly([], {}, into, outOf)
  {
  }

  /** `diffcaps`: what to add and what to remove to get from one form to another. Both must be about the same
      capabilities, and name each once. */
  method DiffCaps(oldYes: seq<int32>, oldNo: seq<int32>, newYes: seq<int32>, newNo: seq<int32>)
    returns (r: Result<(seq<int32>, seq<int32>), CapError>)
    ensures r.Ok? <==> SameForm(oldYes, oldNo, newYes, newNo)
    ensures r.Err? ==> r.error in {Duplicate, NotInOld, Leftover}
    ensures r.Ok? ==> Unique(r.value.0 + r.value.1)
                      && Elements(r.value.0) == Elements(newYes) - Elements(oldYes)
                      && Elements(r.value.1) == Elements(oldYes) - Elements(newYes)
  {
    hide Elements, Unique;
    var oldMarked := MarkCaps(oldYes, oldNo);
    if oldMarked == None {
      return Err(Duplicate);
    }
    var newMarked := MarkCaps(newYes, newNo);
    if newMarked == None {
      return Err(Duplicate);
    }
    r := Diff(oldMarked.value, newMarked.value);
    SameCaps(oldMarked.value, newMarked.value, oldYes, oldNo, newYes, newNo);
    if r.Ok? {
      var (add, remove) := r.value;
      forall c: int ensures c in Elements(add) <==> c in Elements(newYes) - Elements(oldYes) {
        IsCap(newYes, c);
        IsCap(add, c);
      }
      forall c: int ensures c in Elements(remove) <==> c in Elements(oldYes) - Elements(newYes) {
        IsCap(oldYes, c);
        IsCap(remove, c);
      }
      assert Elements(add) == Elements(newYes) - Elements(oldYes);
      UniqueConcat(add, remove);
    }
  }

  lemma IsCap(s: seq<int32>, c: int)
    ensures c in Elements(s) ==> -0x8000_0000 <= c < 0x8000_0000
  {
  }

  lemma UniqueConcat(a: seq<int32>, b: seq<int32>)
    requires Unique(a) && Unique(b) && Elements(a) !! Elements(b)
    ensures Unique(a + b)
  {
    forall i, j | 0 <= i < |a| && 0 <= j < |b| ensures a[i] != b[j] {
      assert a[i] in Elements(a) && b[j] in Elements(b);
    }
  }

  lemma SameCaps(olds: map<int32, bool>, news: map<int32, bool>, oldYes: seq<int32>, oldNo: seq<int32>,
                 newYes: seq<int32>, newNo: seq<int32>)
    requires forall c :: c in olds <==> c in Elements(oldYes) || c in Elements(oldNo)
    requires forall c :: c in news <==> c in Elements(newYes) || c in Elements(newNo)
    ensures olds.Keys == news.Keys <==> Elements(oldYes) + Elements(oldNo) == Elements(newYes) + Elements(newNo)
  {
    hide Elements;
    var a, b := Elements(oldYes) + Elements(oldNo), Elements(newYes) + Elements(newNo);
    forall c: int ensures (c in a || c in b) ==> -0x8000_0000 <= c < 0x8000_0000 {
      IsCap(oldYes, c);
      IsCap(oldNo, c);
      IsCap(newYes, c);
      IsCap(newNo, c);
    }
    if olds.Keys == news.Keys {
      forall c: int ensures c in a <==> c in b {
        if -0x8000_0000 <= c < 0x8000_0000 {
          var d: int32 := c;
          assert d in olds <==> d in news;
        }
      }
    }
  }

  // `UpdateUserTask.Run` on a user of the right version, by somebody who may

  const UNKNOWN := 0

  predicate Ascends(s: seq<int32>) {
    forall i, j :: 0 <= i < j < |s| ==> s[i] <= s[j]
  }

  function AtMost(): (int32, int32) -> bool { (a: int32, b: int32) => a <= b }

  /** `sort.Sort(userCaps(...))`. */
  function SortCaps(s: seq<int32>): seq<int32> { Sort(s, AtMost()) }

  lemma SortCapsSorts(s: seq<int32>)
    ensures multiset(SortCaps(s)) == multiset(s) && Ascends(SortCaps(s))
  {
    hide Sort;
    SortKeeps(s, AtMost());
    SortAscending(s, AtMost());
    assert forall i, j :: 0 <= i < j < |s| ==> AtMost()(SortCaps(s)[i], SortCaps(s)[j]);
  }

  lemma SameElements(a: seq<int32>, b: seq<int32>)
    requires multiset(a) == multiset(b)
    ensures Elements(a) == Elements(b) && |a| == |b|
  {
    assert |multiset(a)| == |multiset(b)|;
    forall c: int32 ensures c in Elements(a) <==> c in Elements(b) {
      assert c in multiset(a) <==> c in multiset(b);
      assert c in Elements(a) <==> c in a;
      assert c in Elements(b) <==> c in b;
    }
    forall c: int ensures c in Elements(a) <==> c in Elements(b) {
      IsCap(a, c);
      IsCap(b, c);
      if -0x8000_0000 <= c < 0x8000_0000 { var d: int32 := c; assert d in Elements(a) <==> d in Elements(b); }
    }
  }

  /** A list is free of duplicates exactly when it has as many elements as entries. */
  lemma {:induction false} UniqueBySize(s: seq<int32>)
    ensures Unique(s) <==> |Elements(s)| == |s|
    ensures |Elements(s)| <= |s|
  {
    if s != [] {
      var n := |s| - 1;
      UniqueBySize(s[..n]);
      assert s == s[..n] + [s[n]];
      ElementsMore(s[..n], s[n]);
      assert Unique(s) <==> Unique(s[..n]) && s[n] !in Elements(s[..n]) by {
        if s[n] in Elements(s[..n]) {
          Twice(s[..n], s[n], []);
          assert s[..n] + [s[n]] + [] == s;
        } else if Unique(s[..n]) {
          UniqueMore(s[..n], s[n]);
        } else {
          var i, j :| 0 <= i < j < n && s[..n][i] == s[..n][j];
          assert s[i] == s[j];
        }
      }
    }
  }

  lemma SortedUnique(s: seq<int32>)
    requires Ascends(s) && Unique(s)
    ensures Sorted(s)
  {
  }

  lemma SortedLast(s: seq<int32>)
    requires Sorted(s) && s != []
    ensures var n := |s| - 1;
            && Sorted(s[..n]) && s == s[..n] + [s[n]] && s[n] in Elements(s)
            && Elements(s[..n]) == Elements(s) - {s[n]} && forall e :: e in Elements(s) ==> e <= s[n]
  {
    var n := |s| - 1;
    assert s == s[..n] + [s[n]];
    ElementsMore(s[..n], s[n]);
  }

  /** Sorted lists with the same elements are the same. */
  lemma {:induction false} SortedSame(a: seq<int32>, b: seq<int32>)
    requires Sorted(a) && Sorted(b) && Elements(a) == Elements(b)
    ensures a == b
  {
    hide Elements, Sorted;
    NoneIfEmpty(a);
    NoneIfEmpty(b);
    if a != [] {
      SortedLast(a);
      SortedLast(b);
      SortedSame(a[..|a| - 1], b[..|b| - 1]);
    }
  }

  /** The comparison of sorted lists finds out whether a duplicate-free list has the given elements. */
  lemma ComparesSets(caps: seq<int32>, oldCaps: seq<int32>)
    requires Sorted(caps)
    ensures caps == SortCaps(oldCaps) <==> Unique(oldCaps) && Elements(caps) == Elements(oldCaps)
  {
    SortCapsSorts(oldCaps);
    var sorted := SortCaps(oldCaps);
    SameElements(oldCaps, sorted);
    UniqueBySize(oldCaps);
    UniqueBySize(sorted);
    UniqueBySize(caps);
    if Unique(oldCaps) && Elements(caps) == Elements(oldCaps) {
      SortedUnique(sorted);
      SortedSame(caps, sorted);
    }
  }

  predicate AllKnown(caps: seq<int32>, names: set<int>) {
    forall i :: 0 <= i < |caps| ==> caps[i] in names && caps[i] != UNKNOWN
  }

  /** The loops over the two lists; the set is that of `both`. */
  method Checked(caps: seq<int32>, names: set<int>, both: set<int32>) returns (r: Option<set<int32>>)
    ensures r == None <==> !AllKnown(caps, names)
    ensures r.Some? ==> forall c :: c in r.value <==> c in both || c in Elements(caps)
  {
    hide Elements;
    var all := both;
    NoElements();
    for i := 0 to |caps|
      invariant AllKnown(caps[..i], names)
      invariant forall c :: c in all <==> c in both || c in Elements(caps[..i])
    {
      if caps[i] !in names || caps[i] == UNKNOWN {
        return None;
      }
      assert caps[..i + 1] == caps[..i] + [caps[i]];
      ElementsMore(caps[..i], caps[i]);
      all := all + {caps[i]};
    }
    assert caps[..|caps|] == caps;
    return Some(all);
  }

  lemma SizeOfSame(a: set<int32>, b: set<int>)
    requires forall c: int32 :: c in a <==> c in b
    requires forall c :: c in b ==> -0x8000_0000 <= c < 0x8000_0000
    ensures |a| == |b|
  {
    var c: set<int> := a;
    forall x: int ensures x in c <==> x in b {
      if x in b { var d: int32 := x; assert d in a; }
      if x in c { var d: int32 := x; assert d in b; }
    }
    assert c == b;
  }

  /** The capabilities of a set as a list, in some order. */
  method Listed(all: set<int32>) returns (caps: seq<int32>)
    ensures Unique(caps) && forall c: int32 :: c in Elements(caps) <==> c in all
  {
    hide Elements, Unique;
    caps := [];
    NoElements();
    var rest := all;
    while rest != {}
      invariant rest <= all && Unique(caps) && forall c: int32 :: c in Elements(caps) <==> c in all - rest
      decreases |rest|
    {
      var c :| c in rest;
      ElementsMore(caps, c);
      UniqueMore(caps, c);
      caps := caps + [c];
      rest := rest - {c};
    }
  }

  /** The change of capabilities in `UpdateUserTask.Run`, and whether there was one. A list with a duplicate in it
      counts as changed whatever happens. */
  method UpdateCaps(names: set<int>, oldCaps: seq<int32>, add: seq<int32>, remove: seq<int32>)
    returns (r: Result<(seq<int32>, bool), CapError>)
    ensures r.Ok? <==> AllKnown(add, names) && AllKnown(remove, names) && Unique(add + remove)
    ensures r.Err? ==> r.error == if AllKnown(add, names) && AllKnown(remove, names) then Overlap else UnknownCap
    ensures r.Ok? ==> Elements(r.value.0) == Elements(oldCaps) + Elements(add) - Elements(remove)
    ensures r.Ok? && r.value.1 ==> Sorted(r.value.0)
    ensures r.Ok? ==> (r.value.1 <==> add + remove != [] && (!Unique(oldCaps) || Elements(r.value.0) != Elements(oldCaps)))
  {
    hide Elements, Unique, Sorted, Ascends, SortCaps, AllKnown;
    NoElements();
    NoneKnown(names);
    if |add| + |remove| == 0 {
      assert add + remove == [];
      return Ok((oldCaps, false));
    }
    assert |add + remove| != 0;
    var both := Checked(add, names, {});
    if both == None {
      return Err(UnknownCap);
    }
    both := Checked(remove, names, both.value);
    if both == None {
      return Err(UnknownCap);
    }
    BothSize(both.value, add, remove);
    if |both.value| != |add| + |remove| {
      return Err(Overlap);
    }
    var allCaps: set<int32> := (set c | c in oldCaps) + (set c | c in add) - (set c | c in remove);
    var caps := Listed(allCaps);
    SortCapsSorts(caps);
    SortedCaps(caps);
    CapsAre(caps, oldCaps, add, remove, allCaps);
    caps := SortCaps(caps);
    ComparesSets(caps, oldCaps);
    var sortedOld := SortCaps(oldCaps);
    var changed := false;
    SortCapsSorts(oldCaps);
    SameElements(sortedOld, oldCaps);
    if |caps| == |oldCaps| {
      for i := 0 to |oldCaps|
        invariant !changed && caps[..i] == sortedOld[..i]
      {
        if caps[i] != sortedOld[i] {
          changed := true;
          break;
        }
      }
      assert !changed ==> caps == caps[..|caps|] && sortedOld == sortedOld[..|caps|];
    } else {
      changed := true;
    }
    return Ok((caps, changed));
  }

  lemma NoneKnown(names: set<int>)
    ensures AllKnown([], names)
  {
  }

  lemma BothSize(both: set<int32>, add: seq<int32>, remove: seq<int32>)
    requires forall c :: c in both <==> c in Elements(add) || c in Elements(remove)
    ensures |both| == |add| + |remove| <==> Unique(add + remove)
  {
    hide Elements, Unique;
    ElementsConcat(add, remove);
    UniqueBySize(add + remove);
    forall c: int ensures c in Elements(add + remove) ==> -0x8000_0000 <= c < 0x8000_0000 {
      IsCap(add + remove, c);
    }
    SizeOfSame(both, Elements(add + remove));
  }

  lemma SortedCaps(caps: seq<int32>)
    requires Unique(caps)
    ensures Sorted(SortCaps(caps)) && Elements(SortCaps(caps)) == Elements(caps)
  {
    SortCapsSorts(caps);
    SameElements(caps, SortCaps(caps));
    UniqueBySize(caps);
    UniqueBySize(SortCaps(caps));
    SortedUnique(SortCaps(caps));
  }

  lemma CapsAre(caps: seq<int32>, oldCaps: seq<int32>, add: seq<int32>, remove: seq<int32>, allCaps: set<int32>)
    requires allCaps == (set c | c in oldCaps) + (set c | c in add) - (set c | c in remove)
    requires forall c: int32 :: c in Elements(caps) <==> c in allCaps
    ensures Elements(caps) == Elements(oldCaps) + Elements(add) - Elements(remove)
  {
    forall c: int ensures c in Elements(caps) <==> c in Elements(oldCaps) + Elements(add) - Elements(remove) {
      IsCap(caps, c);
      IsCap(oldCaps, c);
      IsCap(add, c);
      if -0x8000_0000 <= c < 0x8000_0000 {
        var d: int32 := c;
        assert d in Elements(oldCaps) <==> d in oldCaps;
        assert d in Elements(add) <==> d in add;
        assert d in Elements(remove) <==> d in remove;
      }
    }
  }

  /** Two lists of the same capabilities, none twice. */
  predicate SameForm(oldYes: seq<int32>, oldNo: seq<int32>, newYes: seq<int32>, newNo: seq<int32>) {
    && Unique(oldYes + oldNo) && Unique(newYes + newNo)
    && Elements(oldYes) + Elements(oldNo) == Elements(newYes) + Elements(newNo)
  }

  predicate KnownSet(caps: set<int>, names: set<int>) {
    forall c :: c in caps ==> c in names && c != UNKNOWN
  }

  /** The form sent through the task: the capabilities on the form become those ticked, the others stay, and a
      write happens exactly when the form was changed. */
  method SubmitForm(names: set<int>, caps: seq<int32>, oldYes: seq<int32>, oldNo: seq<int32>, newYes: seq<int32>,
                    newNo: seq<int32>)
    returns (r: Result<(seq<int32>, bool), CapError>)
    requires Unique(caps) && Elements(caps) * (Elements(oldYes) + Elements(oldNo)) == Elements(oldYes)
    ensures r.Ok? ==>
              var form := Elements(oldYes) + Elements(oldNo);
              && Elements(r.value.0) * form == Elements(newYes) && Elements(r.value.0) - form == Elements(caps) - form
              && (r.value.1 <==> Elements(newYes) != Elements(oldYes))
    ensures r.Ok? <==>
              && SameForm(oldYes, oldNo, newYes, newNo)
              && KnownSet(Elements(newYes) - Elements(oldYes), names)
              && KnownSet(Elements(oldYes) - Elements(newYes), names)
    ensures r == Err(UnknownCap) <==>
              && SameForm(oldYes, oldNo, newYes, newNo)
              && !(KnownSet(Elements(newYes) - Elements(oldYes), names)
                   && KnownSet(Elements(oldYes) - Elements(newYes), names))
  {
    hide Elements, Unique, Sorted;
    var diff := DiffCaps(oldYes, oldNo, newYes, newNo);
    if diff.Err? {
      return Err(diff.error);
    }
    var (add, remove) := diff.value;
    KnownElements(add, names);
    KnownElements(remove, names);
    NoElements();
    ElementsConcat(add, remove);
    NoneIfEmpty(add + remove);
    UniqueNo(oldYes, oldNo);
    UniqueNo(newYes, newNo);
    r := UpdateCaps(names, caps, add, remove);
  }

  lemma UniqueNo(yes: seq<int32>, no: seq<int32>)
    requires Unique(yes + no)
    ensures Elements(yes) !! Elements(no)
  {
    forall i, j | 0 <= i < |yes| && 0 <= j < |no| ensures yes[i] != no[j] {
      assert (yes + no)[i] == yes[i] && (yes + no)[|yes| + j] == no[j];
    }
  }

  lemma NoneIfEmpty(s: seq<int32>)
    ensures Elements(s) == {} <==> s == []
  {
    if s != [] {
      assert s[0] in Elements(s);
    }
  }

  lemma KnownElements(caps: seq<int32>, names: set<int>)
    ensures AllKnown(caps, names) <==> KnownSet(Elements(caps), names)
  {
    if KnownSet(Elements(caps), names) {
      forall i | 0 <= i < |caps| ensures caps[i] in names && caps[i] != UNKNOWN {
        assert caps[i] in Elements(caps);
      }
    }
  }
}
