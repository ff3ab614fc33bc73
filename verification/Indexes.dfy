/** Rows numbered within a group: votes of one user on one pic, events of one user at one time.
    The number of a new row is one more than the biggest in its group. */
module Indexes {
  import opened Prelude

  datatype Key<G> = Key(group: G, index: int64)

  function Group<G(==)>(keys: set<Key<G>>, g: G): set<Key<G>> {
    set k | k in keys && k.group == g
  }

  /** The numbers of a group are 0, 1, ..., one less than its size. */
  ghost predicate Dense<G>(keys: set<Key<G>>, g: G) {
    forall i: int64 :: Key(g, i) in keys <==> 0 <= i < |Group(keys, g)|
  }

  ghost predicate AllDense<G(!new)>(keys: set<Key<G>>) {
    forall g: G :: Dense(keys, g)
  }

  /** The loop that looks for the biggest number, and the number after it; none after the last int64. */
  method NextIndex<G(==,!new)>(keys: set<Key<G>>, g: G) returns (r: Option<int64>)
    requires Dense(keys, g)
    ensures r == if |Group(keys, g)| <= MAX_INT64 then Some(|Group(keys, g)|) else None
  {
    var found := Group(keys, g);
    var biggest: int64 := -1;
    var rest := found;
    while rest != {}
      invariant rest <= found
      invariant biggest == -1 || Key(g, biggest) in found
      invariant forall k :: k in found - rest ==> k.index <= biggest
      invariant biggest >= -1
      decreases |rest|
    {
      var k :| k in rest;
      if k.index > biggest {
        biggest := k.index;
      }
      rest := rest - {k};
    }
    if |found| > 0 {
      SizeInRange(keys, g);
      assert Key(g, |found| - 1) in found;
      assert biggest == |found| - 1;
    } else {
      assert forall k :: k !in found;
    }
    if biggest == MAX_INT64 {
      return None;
    }
    return Some(biggest + 1);
  }

  /** A dense group cannot be bigger than the numbers there are. */
  lemma SizeInRange<G(!new)>(keys: set<Key<G>>, g: G)
    requires Dense(keys, g)
    ensures |Group(keys, g)| <= TWO_TO_THE_63
  {
    if |Group(keys, g)| > TWO_TO_THE_63 {
      var low := Numbered(g, TWO_TO_THE_63);
      assert Group(keys, g) <= low;
      SubsetSize(Group(keys, g), low);
    }
  }

  ghost function Numbered<G(!new)>(g: G, n: nat): (r: set<Key<G>>)
    requires n <= TWO_TO_THE_63
    ensures |r| == n && forall k :: k in r <==> k.group == g && 0 <= k.index < n
  {
    if n == 0 then {} else
      assert forall k: Key<G> :: k.group == g && k.index == n - 1 <==> k == Key(g, n - 1);
      Numbered(g, n - 1) + {Key(g, n - 1)}
  }

  lemma {:induction false} SubsetSize<T>(a: set<T>, b: set<T>)
    requires a <= b
    ensures |a| <= |b|
  {
    if a != {} {
      var x :| x in a;
      SubsetSize(a - {x}, b - {x});
    }
  }

  /** A row with the next number keeps every group dense. */
  lemma NextKeepsDense<G>(keys: set<Key<G>>, g: G, h: G)
    requires |Group(keys, g)| <= MAX_INT64 && Dense(keys, g) && Dense(keys, h)
    ensures var k := Key(g, |Group(keys, g)|);
            && k !in keys && Dense(keys + {k}, h)
            && |Group(keys + {k}, h)| == |Group(keys, h)| + if g == h then 1 else 0
  {
    var k := Key(g, |Group(keys, g)|);
    if g == h {
      assert Group(keys + {k}, h) == Group(keys, h) + {k};
    } else {
      assert Group(keys + {k}, h) == Group(keys, h);
    }
  }
}
