/** Vocabulary shared by every component: machine integers, error results, lexicographic order. */
module Prelude {
  datatype Option<+T> = None | Some(value: T)

  datatype Result<+T, +E> = Ok(value: T) | Err(error: E)

  // Go's int64 and uint64, as ranges of the integers.

  const TWO_TO_THE_63 := 0x8000_0000_0000_0000
  const TWO_TO_THE_64 := 0x1_0000_0000_0000_0000
  const MIN_INT64 := -TWO_TO_THE_63
  const MAX_INT64 := TWO_TO_THE_63 - 1

  type int64 = x: int | MIN_INT64 <= x <= MAX_INT64
  type uint64 = x: int | 0 <= x < TWO_TO_THE_64

  /** The conversion `uint64(v)`. */
  function ToUint64(v: int64): uint64 {
    if v < 0 then v + TWO_TO_THE_64 else v
  }

  /** The conversion `int64(n)`. */
  function ToInt64(n: uint64): int64 {
    if n < TWO_TO_THE_63 then n else n - TWO_TO_THE_64
  }

  lemma ConvertBack(n: uint64)
    ensures ToUint64(ToInt64(n)) == n
  {
  }

  // Lexicographic order.

  /** The order of Go's `bytes.Compare(a, b) < 0`. */
  predicate LexLess(a: string, b: string) {
    b != [] && (a == [] || a[0] < b[0] || (a[0] == b[0] && LexLess(a[1..], b[1..])))
  }

  lemma {:induction false} LexLessAsymmetric(a: string, b: string)
    requires LexLess(a, b)
    ensures !LexLess(b, a)
  {
    if a != [] && a[0] == b[0] {
      LexLessAsymmetric(a[1..], b[1..]);
    }
  }

  /** A common prefix does not matter. */
  lemma {:induction false} LexLessPrepend(p: string, a: string, b: string)
    ensures LexLess(p + a, p + b) == LexLess(a, b)
  {
    if p == [] {
      assert p + a == a && p + b == b;
    } else {
      LexLessPrepend(p[1..], a, b);
      assert (p + a)[1..] == p[1..] + a && (p + b)[1..] == p[1..] + b;
    }
  }

  /** Strings of one length that differ keep their order however they are extended. */
  lemma {:induction false} LexLessExtend(a: string, b: string, x: string, y: string)
    requires |a| == |b| && LexLess(a, b)
    ensures LexLess(a + x, b + y)
  {
    assert (a + x)[0] == a[0] && (b + y)[0] == b[0];
    if a[0] == b[0] {
      LexLessExtend(a[1..], b[1..], x, y);
      assert (a + x)[1..] == a[1..] + x && (b + y)[1..] == b[1..] + y;
    }
  }
}
