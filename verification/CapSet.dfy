/** Capability sets (be/schema/user.go): a word for the capabilities 0 to 63 and a sorted list for any others. */
module CapSet {
  import opened Bits
  import opened Prelude

  type int32 = x: int | -0x8000_0000 <= x < 0x8000_0000

  predicate Sorted(s: seq<int32>) {
    forall i, j :: 0 <= i < j < |s| ==> s[i] < s[j]
  }

  predicate InWord(c: int) { 0 <= c < 64 }

  function Elements(s: seq<int32>): set<int> {
    set i | 0 <= i < |s| :: s[i]
  }

  lemma ElementsMore(s: seq<int32>, c: int32)
    ensures Elements(s + [c]) == Elements(s) + {c}
  {
    assert forall i :: 0 <= i < |s| ==> (s + [c])[i] == s[i];
    assert (s + [c])[|s|] == c;
  }

  lemma ElementsConcat(s: seq<int32>, t: seq<int32>)
    ensures Elements(s + t) == Elements(s) + Elements(t)
  {
    assert forall i :: 0 <= i < |s| ==> (s + t)[i] == s[i];
    assert forall i :: 0 <= i < |t| ==> (s + t)[|s| + i] == t[i];
  }

  predicate Unique(s: seq<int32>) {
    forall i, j :: 0 <= i < j < |s| ==> s[i] != s[j]
  }

  lemma {:induction false} UniqueSize(s: seq<int32>)
    requires Unique(s)
    ensures |Elements(s)| == |s|
  {
    if s != [] {
      var n := |s| - 1;
      UniqueSize(s[..n]);
      assert s == s[..n] + [s[n]];
      ElementsMore(s[..n], s[n]);
    }
  }

  class CapSet {
    var c: nat
    // sorted and unique
    var extra: seq<int32>

    constructor ()
      ensures Valid() && Caps() == {}
    {
      c, extra := 0, [];
      new;
      OnesOfZero(0, 64);
    }

    ghost predicate Valid()
      reads this
    {
      && c < Pow2(64) && Sorted(extra)
      && forall i :: 0 <= i < |extra| ==> !InWord(extra[i])
    }

    /** The set that is meant. */
    ghost function Caps(): set<int>
      reads this
    {
      Ones(c, 64) + Elements(extra)
    }

    method Has(cap: int32) returns (r: bool)
      requires Valid()
      ensures r <==> cap in Caps()
    {
      if 0 <= cap && cap < 64 {
        MaskTest(c, cap);
        return And(c, Pow2(cap)) > 0;
      } else {
        for i := 0 to |extra|
          invariant forall k :: 0 <= k < i ==> extra[k] != cap
        {
          if extra[i] == cap {
            return true;
          }
        }
        return false;
      }
    }

    /** `sort.Search` for the first entry that is not less. */
    method Search(cap: int32) returns (i: nat)
      requires Sorted(extra)
      ensures i <= |extra| && (forall k :: 0 <= k < i ==> extra[k] < cap) && forall k :: i <= k < |extra| ==> extra[k] >= cap
    {
      var j := |extra|;
      i := 0;
      while i < j
        invariant 0 <= i <= j <= |extra|
        invariant forall k :: 0 <= k < i ==> extra[k] < cap
        invariant forall k :: j <= k < |extra| ==> extra[k] >= cap
      {
        var h := (i + j) / 2;
        if !(extra[h] >= cap) {
          i := h + 1;
        } else {
          j := h;
        }
      }
    }

    method Add(cap: int32)
      requires Valid()
      modifies this
      ensures Valid() && Caps() == old(Caps()) + {cap}
    {
      hide Ones, Bit, Pow2, Elements, Sorted, Or;
      if 0 <= cap && cap < 64 {
        WordAdd(c, cap);
        c := Or(c, Pow2(cap));
      } else {
        var n := |extra|;
        var i := Search(cap);
        if i < n && extra[i] == cap {
          HasElement(extra, i);
          return;
        }
        NotThere(extra, i, cap);
        ghost var was := extra;
        extra := extra + [-1];
        extra := extra[..i + 1] + extra[i..n];
        extra := extra[i := cap];
        assert extra == (was[..i] + [cap]) + was[i..];
        Inserted(was, i, cap);
      }
    }

    method Size() returns (n: nat)
      requires Valid()
      ensures n == |Caps()|
    {
      SizeParts(c, extra);
      return Count(c, 64) + |extra|;
    }

    /** Each capability once. */
    method Slice() returns (dst: seq<int32>)
      requires Valid()
      ensures Unique(dst) && Elements(dst) == Caps() && |dst| == |Caps()|
    {
      hide Bit, Pow2, Ones, Elements, Unique, AndNot, Sorted;
      var rest: nat := c;
      ghost var all := Ones(c, 64);
      dst := [];
      NoElements();
      while true
        invariant rest < Pow2(64) && Unique(dst)
        invariant Elements(dst) + Ones(rest, 64) == all && Elements(dst) !! Ones(rest, 64)
        decreases |Ones(rest, 64)|
      {
        var trail := TrailingZeros(rest);
        if trail == 64 {
          break;
        }
        OnesSet(rest, trail, 64);
        WordFits(rest, trail);
        ElementsMore(dst, trail);
        UniqueMore(dst, trail);
        dst := dst + [trail];
        rest := AndNot(rest, Pow2(trail));
      }
      OnesOfZero(rest, 64);
      assert Elements(dst) == all;
      ElementsConcat(dst, extra);
      WordApart(dst, extra, c);
      dst := dst + extra;
      UniqueSize(dst);
    }
  }

  lemma HasElement(s: seq<int32>, i: nat)
    requires i < |s|
    ensures s[i] in Elements(s) && Elements(s) + {s[i]} == Elements(s)
  {
  }

  lemma NotThere(s: seq<int32>, i: nat, v: int32)
    requires Sorted(s) && i <= |s| && (i < |s| ==> s[i] != v) && forall k :: i <= k < |s| ==> s[k] >= v
    ensures forall k :: i <= k < |s| ==> s[k] > v
  {
  }

  /** An entry put in its place. */
  lemma Inserted(s: seq<int32>, i: nat, v: int32)
    requires Sorted(s) && i <= |s| && (forall k :: 0 <= k < i ==> s[k] < v) && forall k :: i <= k < |s| ==> s[k] > v
    requires !InWord(v) && forall k :: 0 <= k < |s| ==> !InWord(s[k])
    ensures var t := s[..i] + [v] + s[i..];
            Sorted(t) && Elements(t) == Elements(s) + {v} && forall k :: 0 <= k < |t| ==> !InWord(t[k])
  {
    hide Elements;
    assert s == s[..i] + s[i..];
    ElementsConcat(s[..i], s[i..]);
    ElementsMore(s[..i], v);
    ElementsConcat(s[..i] + [v], s[i..]);
  }

  lemma UniqueMore(s: seq<int32>, v: int32)
    requires Unique(s) && v !in Elements(s)
    ensures Unique(s + [v])
  {
  }

  lemma WordAdd(c: nat, cap: nat)
    requires c < Pow2(64) && cap < 64
    ensures Or(c, Pow2(cap)) < Pow2(64) && Ones(Or(c, Pow2(cap)), 64) == Ones(c, 64) + {cap}
  {
    OnesSet(c, cap, 64);
    WordFits(c, cap);
  }

  lemma WordFits(c: nat, cap: nat)
    requires c < Pow2(64) && cap < 64
    ensures Or(c, Pow2(cap)) < Pow2(64) && AndNot(c, Pow2(cap)) < Pow2(64)
  {
    hide Pow2, Bitwise;
    Pow2Grows(cap, 64);
    BitwiseFits((x, y) => x || y, c, Pow2(cap), 64);
    BitwiseFits((x, y) => x && !y, c, Pow2(cap), 64);
  }

  lemma WordApart(low: seq<int32>, extra: seq<int32>, c: nat)
    requires Unique(low) && Sorted(extra) && Elements(low) == Ones(c, 64)
    requires forall i :: 0 <= i < |extra| ==> !InWord(extra[i])
    ensures Unique(low + extra)
  {
    forall i | 0 <= i < |low| ensures InWord(low[i]) {
      assert low[i] in Elements(low);
    }
  }

  lemma SizeParts(c: nat, extra: seq<int32>)
    requires Sorted(extra) && forall i :: 0 <= i < |extra| ==> !InWord(extra[i])
    ensures Count(c, 64) + |extra| == |Ones(c, 64) + Elements(extra)|
  {
    hide Bit, Count;
    CountIsSize(c, 64);
    UniqueSize(extra);
    assert Ones(c, 64) !! Elements(extra);
  }

  // Merging sorted lists

  predicate AllBelow(a: set<int>, b: set<int>) {
    forall x, y :: x in a && y in b ==> x < y
  }

  /** A sorted list around one of its entries. */
  lemma Split(s: seq<int32>, i: nat)
    requires Sorted(s) && i < |s|
    ensures Elements(s) == Elements(s[..i]) + Elements(s[i..])
    ensures Elements(s[..i + 1]) == Elements(s[..i]) + {s[i]} && Elements(s[i..]) == {s[i]} + Elements(s[i + 1..])
    ensures AllBelow(Elements(s[..i]), {s[i]}) && AllBelow({s[i]}, Elements(s[i + 1..]))
  {
    hide Elements;
    ElementsMore(s[..i], s[i]);
    ElementsMore([], s[i]);
    assert s[..i + 1] == s[..i] + [s[i]] && s[i..] == [s[i]] + s[i + 1..] && [] + [s[i]] == [s[i]] && s == s[..i] + s[i..];
    ElementsConcat([s[i]], s[i + 1..]);
    ElementsConcat(s[..i], s[i..]);
    NoElements();
    PartsApart(s, i);
    PartsApart(s, i + 1);
  }

  lemma NoElements()
    ensures Elements([]) == {} && Unique([])
  {
  }

  lemma PartsApart(s: seq<int32>, i: nat)
    requires Sorted(s) && i <= |s|
    ensures AllBelow(Elements(s[..i]), Elements(s[i..]))
    ensures i < |s| ==> AllBelow(Elements(s[..i]), {s[i]})
    ensures i > 0 ==> AllBelow({s[i - 1]}, Elements(s[i..]))
  {
  }

  lemma SortedConcat(a: seq<int32>, b: seq<int32>)
    requires Sorted(a) && Sorted(b) && AllBelow(Elements(a), Elements(b))
    ensures Sorted(a + b)
  {
    forall i, j | 0 <= i < |a| && 0 <= j < |b| ensures a[i] < b[j] {
      assert a[i] in Elements(a) && b[j] in Elements(b);
    }
  }

  lemma SortedMore(a: seq<int32>, v: int32)
    requires Sorted(a) && AllBelow(Elements(a), {v})
    ensures Sorted(a + [v])
  {
    forall i | 0 <= i < |a| ensures a[i] < v {
      assert a[i] in Elements(a);
    }
  }

  /** What the loop of `CapIntersect` has sorted out of two lists. */
  ghost predicate Merging(left: seq<int32>, right: seq<int32>, li: nat, ri: nat,
                          both: seq<int32>, leftOnly: seq<int32>, rightOnly: seq<int32>)
    requires li <= |left| && ri <= |right|
  {
    && Sorted(both) && Sorted(leftOnly) && Sorted(rightOnly)
    && Elements(both) == Elements(left[..li]) * Elements(right[..ri])
    && Elements(leftOnly) == Elements(left[..li]) - Elements(right)
    && Elements(rightOnly) == Elements(right[..ri]) - Elements(left)
    && Elements(left[..li]) !! Elements(right[ri..]) && Elements(right[..ri]) !! Elements(left[li..])
  }

  method Merge(left: seq<int32>, right: seq<int32>) returns (both: seq<int32>, leftOnly: seq<int32>,
               rightOnly: seq<int32>)
    requires Sorted(left) && Sorted(right)
    ensures Sorted(both) && Sorted(leftOnly) && Sorted(rightOnly)
    ensures Elements(both) == Elements(left) * Elements(right)
    ensures Elements(leftOnly) == Elements(left) - Elements(right)
    ensures Elements(rightOnly) == Elements(right) - Elements(left)
  {
    hide Elements, Sorted;
    both, leftOnly, rightOnly := [], [], [];
    var li, ri := 0, 0;
    StartMerge(left, right);
    while li < |left| && ri < |right|
      invariant li <= |left| && ri <= |right|
      invariant Merging(left, right, li, ri, both, leftOnly, rightOnly)
      decreases |left| - li + |right| - ri
    {
      var lv, rv := left[li], right[ri];
      Split(left, li);
      Split(right, ri);
      if lv == rv {
        ElementsMore(both, lv);
        SortedMore(both, lv);
        both := both + [lv];
        li, ri := li + 1, ri + 1;
      } else if lv < rv {
        ElementsMore(leftOnly, lv);
        SortedMore(leftOnly, lv);
        leftOnly := leftOnly + [lv];
        li := li + 1;
      } else {
        ElementsMore(rightOnly, rv);
        SortedMore(rightOnly, rv);
        rightOnly := rightOnly + [rv];
        ri := ri + 1;
      }
    }
    EndMerge(left, li, leftOnly);
    EndMerge(right, ri, rightOnly);
    Ends(left, li);
    Ends(right, ri);
    leftOnly := leftOnly + left[li..];
    rightOnly := rightOnly + right[ri..];
  }

  lemma StartMerge(left: seq<int32>, right: seq<int32>)
    ensures Merging(left, right, 0, 0, [], [], [])
  {
  }

  lemma Ends(s: seq<int32>, i: nat)
    requires i <= |s|
    ensures Elements(s) == Elements(s[..i]) + Elements(s[i..]) && (i == |s| ==> Elements(s[i..]) == {})
  {
    assert s == s[..i] + s[i..];
    ElementsConcat(s[..i], s[i..]);
  }

  lemma EndMerge(s: seq<int32>, i: nat, only: seq<int32>)
    requires Sorted(s) && Sorted(only) && i <= |s| && Elements(only) <= Elements(s[..i])
    ensures Sorted(only + s[i..]) && Elements(only + s[i..]) == Elements(only) + Elements(s[i..])
  {
    PartsApart(s, i);
    SortedConcat(only, s[i..]);
    ElementsConcat(only, s[i..]);
  }

  method CapIntersect(left: CapSet, right: CapSet) returns (both: CapSet, leftOnly: CapSet, rightOnly: CapSet)
    requires left.Valid() && right.Valid()
    ensures fresh(both) && fresh(leftOnly) && fresh(rightOnly)
    ensures both.Valid() && leftOnly.Valid() && rightOnly.Valid()
    ensures both.Caps() == left.Caps() * right.Caps()
    ensures leftOnly.Caps() == left.Caps() - right.Caps()
    ensures rightOnly.Caps() == right.Caps() - left.Caps()
  {
    hide Elements, Ones, Sorted, Pow2, Bitwise;
    both := new CapSet();
    leftOnly := new CapSet();
    rightOnly := new CapSet();
    var bc := And(left.c, right.c);
    var be, le, re := Merge(left.extra, right.extra);
    IntersectWords(left.c, right.c);
    OutOfWord(left.extra, be);
    OutOfWord(left.extra, le);
    OutOfWord(right.extra, re);
    InOrOut(left.c, right.extra);
    InOrOut(right.c, left.extra);
    both.c, leftOnly.c, rightOnly.c := bc, AndNot(left.c, bc), AndNot(right.c, bc);
    both.extra, leftOnly.extra, rightOnly.extra := be, le, re;
  }

  lemma IntersectWords(l: nat, r: nat)
    requires l < Pow2(64) && r < Pow2(64)
    ensures And(l, r) < Pow2(64) && AndNot(l, And(l, r)) < Pow2(64) && AndNot(r, And(l, r)) < Pow2(64)
    ensures Ones(And(l, r), 64) == Ones(l, 64) * Ones(r, 64)
    ensures Ones(AndNot(l, And(l, r)), 64) == Ones(l, 64) - Ones(r, 64)
    ensures Ones(AndNot(r, And(l, r)), 64) == Ones(r, 64) - Ones(l, 64)
  {
    hide Pow2, Bitwise, Ones;
    BitwiseFits((x, y) => x && y, l, r, 64);
    BitwiseFits((x, y) => x && !y, l, And(l, r), 64);
    BitwiseFits((x, y) => x && !y, r, And(l, r), 64);
    OnesAnd(l, r, 64);
    OnesAnd(l, And(l, r), 64);
    OnesAnd(r, And(l, r), 64);
  }

  lemma OutOfWord(s: seq<int32>, t: seq<int32>)
    requires Elements(t) <= Elements(s) && forall i :: 0 <= i < |s| ==> !InWord(s[i])
    ensures forall i :: 0 <= i < |t| ==> !InWord(t[i])
  {
    forall i | 0 <= i < |t| ensures !InWord(t[i]) {
      assert t[i] in Elements(t);
    }
  }

  lemma InOrOut(c: nat, extra: seq<int32>)
    requires forall i :: 0 <= i < |extra| ==> !InWord(extra[i])
    ensures Ones(c, 64) !! Elements(extra)
  {
  }

  /** `VerifyCapSubset`: what is missing, if anything is. */
  method VerifyCapSubset(have: CapSet, want: CapSet) returns (missing: Option<seq<int32>>)
    requires have.Valid() && want.Valid()
    ensures missing == None <==> want.Caps() <= have.Caps()
    ensures missing.Some? ==> Unique(missing.value) && Elements(missing.value) == want.Caps() - have.Caps()
  {
    var _, _, right := CapIntersect(have, want);
    var n := right.Size();
    if n != 0 {
      var caps := right.Slice();
      return Some(caps);
    }
    return None;
  }

  /** `CapSetOf`. */
  method CapSetOf(caps: seq<int32>) returns (cs: CapSet)
    ensures fresh(cs) && cs.Valid() && cs.Caps() == Elements(caps)
  {
    hide Elements, Ones;
    cs := new CapSet();
    NoElements();
    for i := 0 to |caps|
      invariant cs.Valid() && cs.Caps() == Elements(caps[..i])
    {
      ElementsMore(caps[..i], caps[i]);
      assert caps[..i + 1] == caps[..i] + [caps[i]];
      cs.Add(caps[i]);
    }
    assert caps[..|caps|] == caps;
  }
}
