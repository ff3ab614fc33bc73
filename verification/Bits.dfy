/** The bits of unsigned numbers: a word of n bits is a number below Pow2(n). */
module Bits {
  predicate Bit(c: nat, k: nat) {
    if k == 0 then c % 2 == 1 else Bit(c / 2, k - 1)
  }

  /** `1 << k`. */
  function Pow2(k: nat): (r: nat)
    ensures r > 0
  {
    if k == 0 then 1 else 2 * Pow2(k - 1)
  }

  lemma Pow2Of64()
    ensures Pow2(64) == 0x1_0000_0000_0000_0000
  {
    hide Pow2;
    Pow2Sum(32, 32);
    Pow2Sum(16, 16);
    Pow2Sum(8, 8);
    Pow2Of8();
  }

  lemma Pow2Of8()
    ensures Pow2(8) == 256
  {
  }

  lemma {:induction false} Pow2Sum(a: nat, b: nat)
    ensures Pow2(a + b) == Pow2(a) * Pow2(b)
  {
    if a > 0 {
      Pow2Sum(a - 1, b);
      Twice(Pow2(a - 1), Pow2(b));
    }
  }

  lemma Twice(p: nat, q: nat)
    ensures 2 * (p * q) == (2 * p) * q
  {
  }

  /** A word operation that works bit by bit. */
  function Bitwise(op: (bool, bool) -> bool, c: nat, d: nat): nat
    decreases c + d
  {
    if c == 0 && d == 0 then 0
    else 2 * Bitwise(op, c / 2, d / 2) + if op(c % 2 == 1, d % 2 == 1) then 1 else 0
  }

  function And(c: nat, d: nat): nat { Bitwise((x, y) => x && y, c, d) }

  function Or(c: nat, d: nat): nat { Bitwise((x, y) => x || y, c, d) }

  function Xor(c: nat, d: nat): nat { Bitwise((x, y) => x != y, c, d) }

  /** `c & ^d`. */
  function AndNot(c: nat, d: nat): nat { Bitwise((x, y) => x && !y, c, d) }

  lemma {:induction false} BitwiseBit(op: (bool, bool) -> bool, c: nat, d: nat, k: nat)
    requires !op(false, false)
    ensures Bit(Bitwise(op, c, d), k) == op(Bit(c, k), Bit(d, k))
    decreases k
  {
    if c == 0 && d == 0 {
      ZeroBit(k);
    } else if k > 0 {
      BitwiseBit(op, c / 2, d / 2, k - 1);
    }
  }

  lemma {:induction false} BitwiseFits(op: (bool, bool) -> bool, c: nat, d: nat, n: nat)
    requires !op(false, false) && c < Pow2(n) && d < Pow2(n)
    ensures Bitwise(op, c, d) < Pow2(n)
    decreases n
  {
    if !(c == 0 && d == 0) {
      BitwiseFits(op, c / 2, d / 2, n - 1);
    }
  }

  lemma {:induction false} ZeroBit(k: nat)
    ensures !Bit(0, k)
  {
    if k > 0 {
      ZeroBit(k - 1);
    }
  }

  lemma {:induction false} Pow2Bit(i: nat, k: nat)
    ensures Bit(Pow2(i), k) == (i == k)
  {
    if i > 0 && k > 0 {
      Pow2Bit(i - 1, k - 1);
    } else if k > 0 {
      ZeroBit(k - 1);
    }
  }

  lemma {:induction false} Pow2Grows(i: nat, n: nat)
    requires i < n
    ensures 2 * Pow2(i) <= Pow2(n)
  {
    if i < n - 1 {
      Pow2Grows(i, n - 1);
    }
  }

  // Sets of positions

  /** The positions of the bits of a word that are set. */
  function Ones(c: nat, n: nat): set<int> {
    set k | 0 <= k < n && Bit(c, k)
  }

  /** How many of the lowest bits are set: for n = 64, `bits.OnesCount64`. */
  function Count(c: nat, n: nat): nat {
    if n == 0 then 0 else Count(c, n - 1) + if Bit(c, n - 1) then 1 else 0
  }

  lemma {:induction false} CountIsSize(c: nat, n: nat)
    ensures Count(c, n) == |Ones(c, n)|
  {
    hide Bit;
    if n == 0 {
      assert Ones(c, 0) == {};
    } else {
      CountIsSize(c, n - 1);
      if Bit(c, n - 1) {
        assert Ones(c, n) == Ones(c, n - 1) + {n - 1};
      } else {
        assert Ones(c, n) == Ones(c, n - 1);
      }
    }
  }

  /** The count from the other end. */
  lemma {:induction false} CountHalf(c: nat, n: nat)
    requires n > 0
    ensures Count(c, n) == c % 2 + Count(c / 2, n - 1)
  {
    if n > 1 {
      CountHalf(c, n - 1);
    }
  }

  lemma OnesSet(c: nat, i: nat, n: nat)
    requires i < n
    ensures Ones(Or(c, Pow2(i)), n) == Ones(c, n) + {i}
    ensures Ones(AndNot(c, Pow2(i)), n) == Ones(c, n) - {i}
  {
    hide Bit, Pow2, Bitwise;
    forall j | 0 <= j < n
      ensures Bit(Or(c, Pow2(i)), j) == (Bit(c, j) || i == j)
      ensures Bit(AndNot(c, Pow2(i)), j) == (Bit(c, j) && i != j)
    {
      BitwiseBit((x, y) => x || y, c, Pow2(i), j);
      BitwiseBit((x, y) => x && !y, c, Pow2(i), j);
      Pow2Bit(i, j);
    }
  }

  lemma OnesAnd(c: nat, d: nat, n: nat)
    ensures Ones(And(c, d), n) == Ones(c, n) * Ones(d, n)
    ensures Ones(AndNot(c, d), n) == Ones(c, n) - Ones(d, n)
  {
    hide Bit, Bitwise;
    forall j | 0 <= j < n
      ensures Bit(And(c, d), j) == (Bit(c, j) && Bit(d, j)) && Bit(AndNot(c, d), j) == (Bit(c, j) && !Bit(d, j))
    {
      BitwiseBit((x, y) => x && y, c, d, j);
      BitwiseBit((x, y) => x && !y, c, d, j);
    }
  }

  /** The test of a bit with a mask. */
  lemma {:induction false} MaskTest(c: nat, k: nat)
    ensures And(c, Pow2(k)) > 0 <==> Bit(c, k)
  {
    var d := And(c, Pow2(k));
    BitwiseBit((x, y) => x && y, c, Pow2(k), k);
    Pow2Bit(k, k);
    if d == 0 {
      ZeroBit(k);
    } else {
      var j := SomeBit(d);
      BitwiseBit((x, y) => x && y, c, Pow2(k), j);
      Pow2Bit(k, j);
    }
  }

  /** A number that is not zero has a bit. */
  lemma {:induction false} SomeBit(c: nat) returns (k: nat)
    requires c > 0
    ensures Bit(c, k) && Pow2(k) <= c
  {
    if c % 2 == 1 {
      k := 0;
    } else {
      k := SomeBit(c / 2);
      k := k + 1;
    }
  }

  lemma OnesOfZero(c: nat, n: nat)
    requires c < Pow2(n)
    ensures Ones(c, n) == {} <==> c == 0
  {
    hide Bit;
    if c == 0 {
      forall j | 0 <= j < n ensures !Bit(0, j) { ZeroBit(j); }
    } else {
      var k := SomeBit(c);
      if k >= n {
        if k > n { Pow2Grows(n, k); }
        assert false;
      }
      assert k in Ones(c, n);
    }
  }

  /** `bits.TrailingZeros64`: the lowest position set, or 64. */
  method TrailingZeros(c: nat) returns (k: nat)
    requires c < Pow2(64)
    ensures k <= 64 && (k == 64 <==> c == 0) && (k < 64 ==> k in Ones(c, 64))
    ensures forall i :: i in Ones(c, 64) ==> i >= k
  {
    hide Bit;
    OnesOfZero(c, 64);
    k := 0;
    while k < 64 && !Bit(c, k)
      invariant k <= 64 && forall i :: 0 <= i < k ==> !Bit(c, i)
    {
      k := k + 1;
    }
    assert k < 64 ==> k in Ones(c, 64);
  }
}
