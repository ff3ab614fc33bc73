/** Perceptual hashes: counting bits (be/imaging/dct_hash.go), the distance between hashes
    (be/tasks/find_similar_pics_task.go), and the hash of a transformed image. */
module Hash {
  import opened Bits
  import opened Lists
  import opened Prelude

  // `CountBits`

  const M1 := 0x5555_5555_5555_5555
  const M2 := 0x3333_3333_3333_3333
  const M4 := 0x0f0f_0f0f_0f0f_0f0f
  const R8 := 0x0101_0101_0101_0101

  function Wrap(n: int): (r: uint64) {
    n % TWO_TO_THE_64
  }

  function CountBits(num: uint64): int {
    var n1 := Wrap(num - And(num / 2, M1));
    var n2 := Wrap(And(n1, M2) + And(n1 / 4, M2));
    Wrap(And(Wrap(n2 + n2 / 16), M4) * R8) / 0x100_0000_0000_0000
  }

  /** A number with n equal digits. */
  function Repeat(base: nat, digit: nat, n: nat): nat {
    if n == 0 then 0 else base * Repeat(base, digit, n - 1) + digit
  }

  lemma {:induction false} Repeat4(digit: nat, n: nat)
    ensures Repeat(4, digit, 2 * n) == Repeat(16, 5 * digit, n)
  {
    if n > 0 {
      Repeat4(digit, n - 1);
      assert Repeat(4, digit, 2 * n - 1) == 4 * Repeat(4, digit, 2 * (n - 1)) + digit;
    }
  }

  lemma {:induction false} Repeat16(digit: nat, n: nat)
    ensures Repeat(16, digit, 2 * n) == Repeat(256, 17 * digit, n)
  {
    if n > 0 {
      Repeat16(digit, n - 1);
      assert Repeat(16, digit, 2 * n - 1) == 16 * Repeat(16, digit, 2 * (n - 1)) + digit;
    }
  }

  lemma Repeat256(digit: nat)
    ensures Repeat(256, digit, 8) == 0x0101_0101_0101_0101 * digit
  {
    assert Repeat(256, digit, 1) == digit;
    assert Repeat(256, digit, 2) == 0x0101 * digit;
    assert Repeat(256, digit, 3) == 0x01_0101 * digit;
    assert Repeat(256, digit, 4) == 0x0101_0101 * digit;
    assert Repeat(256, digit, 5) == 0x01_0101_0101 * digit;
    assert Repeat(256, digit, 6) == 0x0101_0101_0101 * digit;
    assert Repeat(256, digit, 7) == 0x01_0101_0101_0101 * digit;
  }

  lemma Masks()
    ensures Repeat(4, 1, 32) == M1 && Repeat(16, 3, 16) == M2 && Repeat(256, 15, 8) == M4
  {
    hide Repeat;
    Repeat4(1, 16);
    Repeat16(5, 8);
    Repeat16(3, 8);
    Repeat256(85);
    Repeat256(51);
    Repeat256(15);
  }

  // An `And` with a mask takes digits apart.

  lemma AndEven(x: nat, y: nat)
    ensures And(x, 2 * y) == 2 * And(x / 2, y)
    ensures And(x, 2 * y + 1) == 2 * And(x / 2, y) + x % 2
  {
  }

  lemma And4(x: nat, m: nat)
    ensures And(x, 4 * m + 1) == 4 * And(x / 4, m) + x % 2
  {
    hide And;
    AndEven(x, 2 * m);
    AndEven(x / 2, m);
  }

  lemma And16(x: nat, m: nat)
    ensures And(x, 16 * m + 3) == 16 * And(x / 16, m) + x % 4
  {
    hide And;
    AndEven(x, 8 * m + 1);
    AndEven(x / 2, 4 * m);
    AndEven(x / 4, 2 * m);
    AndEven(x / 8, m);
  }

  lemma And256(x: nat, m: nat)
    ensures And(x, 256 * m + 15) == 256 * And(x / 256, m) + x % 16
  {
    hide And;
    AndEven(x, 128 * m + 7);
    AndEven(x / 2, 64 * m + 3);
    AndEven(x / 4, 32 * m + 1);
    AndEven(x / 8, 16 * m);
    AndEven(x / 16, 8 * m);
    AndEven(x / 32, 4 * m);
    AndEven(x / 64, 2 * m);
    AndEven(x / 128, m);
  }

  // What each step leaves: the counts of ever longer pieces, side by side.

  function Pairs(x: nat, n: nat): nat {
    if n == 0 then 0 else 4 * Pairs(x / 4, n - 1) + Count(x, 2)
  }

  function Nibbles(x: nat, n: nat): nat {
    if n == 0 then 0 else 16 * Nibbles(x / 16, n - 1) + Count(x, 4)
  }

  function Bytes(x: nat, n: nat): nat {
    if n == 0 then 0 else 256 * Bytes(x / 256, n - 1) + Count(x, 8)
  }

  function Halves(x: nat, a: nat): nat {
    if a == 0 then x else Halves(x / 2, a - 1)
  }

  lemma {:induction false} HalvesMore(x: nat, a: nat, b: nat)
    ensures Halves(x, a + b) == Halves(Halves(x, a), b)
  {
    if a > 0 {
      HalvesMore(x / 2, a - 1, b);
    }
  }

  lemma Halves2(x: nat)
    ensures Halves(x, 2) == x / 4
  {
    assert Halves(x / 2, 1) == Halves(x / 2 / 2, 0);
  }

  lemma Halves4(x: nat)
    ensures Halves(x, 4) == x / 16
  {
    HalvesMore(x, 2, 2);
    Halves2(x);
    Halves2(x / 4);
  }

  lemma {:induction false} CountSplit(x: nat, a: nat, b: nat)
    ensures Count(x, a + b) == Count(x, a) + Count(Halves(x, a), b)
  {
    if a > 0 {
      hide Count;
      CountHalf(x, a + b);
      CountHalf(x, a);
      CountSplit(x / 2, a - 1, b);
    }
  }

  lemma Count2(x: nat)
    ensures Count(x, 2) == x % 2 + (x / 2) % 2
  {
    CountHalf(x, 2);
    CountHalf(x / 2, 1);
  }

  lemma Count4(x: nat)
    ensures Count(x, 4) == Count(x, 2) + Count(x / 4, 2) <= 4
  {
    hide Count;
    CountSplit(x, 2, 2);
    Halves2(x);
    Count2(x);
    Count2(x / 4);
  }

  lemma Count8(x: nat, n: nat)
    ensures Count(x, 8 + n) == Count(x, 8) + Count(x / 256, n)
    ensures Count(x, 8) == Count(x, 4) + Count(x / 16, 4) <= 8
  {
    hide Count;
    CountSplit(x, 8, n);
    CountSplit(x, 4, 4);
    Halves4(x);
    HalvesMore(x, 4, 4);
    Halves4(x / 16);
    Count4(x);
    Count4(x / 16);
  }

  lemma {:induction false} PairsStep(x: nat, n: nat)
    requires x < Pow2(2 * n)
    ensures x - And(x / 2, Repeat(4, 1, n)) == Pairs(x, n) && Pairs(x, n) <= x
  {
    hide *;
    if n > 0 {
      PairsMore(x, n);
      RepeatMore(4, 1, n);
      FourFold(2 * n);
      QuarterDigits(x);
      PairsStep(x / 4, n - 1);
      And4(x / 2, Repeat(4, 1, n - 1));
      Count2(x);
    } else {
      NoPairs(x);
    }
  }

  lemma PairsMore(x: nat, n: nat)
    requires n > 0
    ensures Pairs(x, n) == 4 * Pairs(x / 4, n - 1) + Count(x, 2)
  {
  }

  lemma RepeatMore(base: nat, digit: nat, n: nat)
    requires n > 0
    ensures Repeat(base, digit, n) == base * Repeat(base, digit, n - 1) + digit
  {
  }

  lemma FourFold(n: nat)
    requires n > 1
    ensures Pow2(n) == 4 * Pow2(n - 2)
  {
    assert Pow2(n) == 2 * Pow2(n - 1);
  }

  lemma QuarterDigits(x: nat)
    ensures x == 4 * (x / 4) + 2 * ((x / 2) % 2) + x % 2
    ensures x / 2 / 4 == x / 4 / 2
  {
    var y := x / 2;
    var z := y / 2;
    Quarter(z, 2 * (y % 2) + x % 2);
    Quarter(z / 2, 2 * (z % 2) + y % 2);
  }

  lemma Quarter(z: nat, d: nat)
    requires d < 4
    ensures (4 * z + d) / 4 == z
  {
  }

  lemma NoPairs(x: nat)
    requires x < Pow2(0)
    ensures x == 0 && Repeat(4, 1, 0) == 0 && And(x / 2, 0) == 0 && Pairs(x, 0) == 0
  {
    ZeroAnd(x / 2);
  }

  lemma ZeroAnd(x: nat)
    requires x == 0
    ensures And(x, 0) == 0
  {
  }

  lemma {:induction false} AndZero(x: nat)
    ensures And(x, 0) == 0
  {
    if x > 0 {
      AndZero(x / 2);
    }
  }

  lemma Digits4(p: nat, c1: nat, c0: nat)
    requires c0 <= 2 && c1 <= 2
    ensures var y := 4 * (4 * p + c1) + c0;
            y % 4 == c0 && y / 4 == 4 * p + c1 && (y / 4) % 4 == c1 && y / 16 == p && y / 4 / 16 == p / 4
  {
  }

  lemma {:induction false} NibblesStep(x: nat, n: nat)
    ensures And(Pairs(x, 2 * n), Repeat(16, 3, n)) + And(Pairs(x, 2 * n) / 4, Repeat(16, 3, n)) == Nibbles(x, n)
  {
    hide *;
    var y := Pairs(x, 2 * n);
    if n > 0 {
      var p, r := Pairs(x / 16, 2 * (n - 1)), Repeat(16, 3, n - 1);
      NibblesStep(x / 16, n - 1);
      NibblesMore(x, n);
      RepeatMore(16, 3, n);
      PairsTwice(x, 2 * n);
      And16(y, r);
      And16(y / 4, r);
      Count2(x);
      Count2(x / 4);
      Count4(x);
      Digits4(p, Count(x / 4, 2), Count(x, 2));
    } else {
      AndZero(y);
      AndZero(y / 4);
      NoNibbles(x);
    }
  }

  lemma NibblesMore(x: nat, n: nat)
    requires n > 0
    ensures Nibbles(x, n) == 16 * Nibbles(x / 16, n - 1) + Count(x, 4)
  {
  }

  lemma PairsTwice(x: nat, n: nat)
    requires n > 1
    ensures Pairs(x, n) == 4 * (4 * Pairs(x / 16, n - 2) + Count(x / 4, 2)) + Count(x, 2)
  {
    hide *;
    PairsMore(x, n);
    PairsMore(x / 4, n - 1);
    assert x / 4 / 4 == x / 16;
  }

  lemma NoNibbles(x: nat)
    ensures Repeat(16, 3, 0) == 0 && Nibbles(x, 0) == 0
  {
  }

  lemma AddShifted(z2: nat, a: nat, b: nat)
    requires a <= 4 && b <= 4 && z2 % 16 <= 4
    ensures var z := 16 * (16 * z2 + b) + a;
            (z + z / 16) / 256 == z2 + z2 / 16 && (z + z / 16) % 16 == a + b
  {
    var z := 16 * (16 * z2 + b) + a;
    var z3, c := z2 / 16, z2 % 16;
    Digit16(16 * z2 + b, a);
    Digit256(z2 + z3, 16 * (c + b) + (a + b));
    Digit16(16 * (z2 + z3) + (c + b), a + b);
  }

  lemma Digit16(q: nat, d: nat)
    requires d < 16
    ensures (16 * q + d) / 16 == q && (16 * q + d) % 16 == d
  {
  }

  lemma Digit256(q: nat, d: nat)
    requires d < 256
    ensures (256 * q + d) / 256 == q
  {
  }

  lemma NibbleSmall(x: nat, n: nat)
    ensures Nibbles(x, n) % 16 <= 4
  {
    if n > 0 {
      NibblesMore(x, n);
      hide Count, Nibbles;
      Count4(x);
      Digit16(Nibbles(x / 16, n - 1), Count(x, 4));
    }
  }

  lemma BytesMore(x: nat, n: nat)
    requires n > 0
    ensures Bytes(x, n) == 256 * Bytes(x / 256, n - 1) + Count(x, 8)
  {
  }

  lemma NibblesTwice(x: nat, n: nat)
    requires n > 1
    ensures Nibbles(x, n) == 16 * (16 * Nibbles(x / 256, n - 2) + Count(x / 16, 4)) + Count(x, 4)
  {
    hide *;
    NibblesMore(x, n);
    NibblesMore(x / 16, n - 1);
    assert x / 16 / 16 == x / 256;
  }

  lemma {:induction false} BytesStep(x: nat, n: nat)
    ensures And(Nibbles(x, 2 * n) + Nibbles(x, 2 * n) / 16, Repeat(256, 15, n)) == Bytes(x, n)
  {
    hide *;
    var z := Nibbles(x, 2 * n);
    if n > 0 {
      var z2 := Nibbles(x / 256, 2 * (n - 1));
      BytesStep(x / 256, n - 1);
      BytesMore(x, n);
      RepeatMore(256, 15, n);
      NibblesTwice(x, 2 * n);
      And256(z + z / 16, Repeat(256, 15, n - 1));
      Count8(x, 0);
      Count4(x);
      Count4(x / 16);
      NibbleSmall(x / 256, 2 * (n - 1));
      AddShifted(z2, Count(x, 4), Count(x / 16, 4));
    } else {
      NoBytes(x);
      AndZero(z + z / 16);
    }
  }

  /** The counts fit where they are put: nothing overflows. */
  lemma {:induction false} NibblesBound(x: nat, n: nat)
    ensures 15 * Nibbles(x, n) <= 4 * (Pow2(4 * n) - 1)
  {
    hide Count;
    if n > 0 {
      NibblesBound(x / 16, n - 1);
      Count4(x);
      assert Pow2(4 * n) == 16 * Pow2(4 * (n - 1)) by { Pow2Sum(4, 4 * (n - 1)); assert Pow2(4) == 16; }
    }
  }

  /** The product adds up the bytes in its highest byte. */
  lemma TopByte(b0: nat, b1: nat, b2: nat, b3: nat, b4: nat, b5: nat, b6: nat, b7: nat, w: nat)
    requires b0 <= 8 && b1 <= 8 && b2 <= 8 && b3 <= 8 && b4 <= 8 && b5 <= 8 && b6 <= 8 && b7 <= 8
    requires w == b0 + 256 * (b1 + 256 * (b2 + 256 * (b3 + 256 * (b4 + 256 * (b5 + 256 * (b6 + 256 * b7))))))
    ensures ((w * 0x0101_0101_0101_0101) % 0x1_0000_0000_0000_0000) / 0x100_0000_0000_0000
         == b0 + b1 + b2 + b3 + b4 + b5 + b6 + b7
  {
    var s1, s2, s3 := b0 + b1, b0 + b1 + b2, b0 + b1 + b2 + b3;
    var s4, s5, s6, s7 := s3 + b4, s3 + b4 + b5, s3 + b4 + b5 + b6, s3 + b4 + b5 + b6 + b7;
    var rest := b0 + 256 * (s1 + 256 * (s2 + 256 * (s3 + 256 * (s4 + 256 * (s5 + 256 * s6)))));
    var high := (s7 - b0) + 256 * ((s7 - s1) + 256 * ((s7 - s2) + 256 * ((s7 - s3) + 256 * ((s7 - s4)
                + 256 * ((s7 - s5) + 256 * (s7 - s6))))));
    TopParts(w * 0x0101_0101_0101_0101, high, s7, rest);
  }

  lemma TopParts(m: nat, high: nat, top: nat, rest: nat)
    requires top < 256 && rest < 0x100_0000_0000_0000
    requires m == high * 0x1_0000_0000_0000_0000 + (rest + 0x100_0000_0000_0000 * top)
    ensures (m % 0x1_0000_0000_0000_0000) / 0x100_0000_0000_0000 == top
  {
    LowPart(m, high, rest + 0x100_0000_0000_0000 * top);
    HighPart(rest, top);
  }

  lemma LowPart(m: nat, high: nat, low: nat)
    requires low < 0x1_0000_0000_0000_0000 && m == high * 0x1_0000_0000_0000_0000 + low
    ensures m % 0x1_0000_0000_0000_0000 == low
  {
  }

  lemma HighPart(rest: nat, top: nat)
    requires rest < 0x100_0000_0000_0000
    ensures (rest + 0x100_0000_0000_0000 * top) / 0x100_0000_0000_0000 == top
  {
  }

  lemma ByteSum(x: nat, n: nat)
    requires n > 0
    ensures Bytes(x, n) == Count(x, 8) + 256 * Bytes(x / 256, n - 1)
    ensures Count(x, 8 * n) == Count(x, 8) + Count(x / 256, 8 * (n - 1))
    ensures Count(x, 8) <= 8
  {
    hide Count;
    Count8(x, 8 * (n - 1));
  }

  /** The bytes of the last step, added up. */
  lemma BytesSum(x: nat)
    ensures ((Bytes(x, 8) * 0x0101_0101_0101_0101) % 0x1_0000_0000_0000_0000) / 0x100_0000_0000_0000 == Count(x, 64)
  {
    hide Count, Bytes;
    var x1 := x / 256; var x2 := x1 / 256; var x3 := x2 / 256; var x4 := x3 / 256;
    var x5 := x4 / 256; var x6 := x5 / 256; var x7 := x6 / 256;
    ByteSum(x, 8);
    ByteSum(x1, 7);
    ByteSum(x2, 6);
    ByteSum(x3, 5);
    ByteSum(x4, 4);
    ByteSum(x5, 3);
    ByteSum(x6, 2);
    ByteSum(x7, 1);
    NoBytes(x7 / 256);
    TopByte(Count(x, 8), Count(x1, 8), Count(x2, 8), Count(x3, 8), Count(x4, 8), Count(x5, 8), Count(x6, 8), Count(x7, 8),
            Bytes(x, 8));
  }

  lemma NoBytes(x: nat)
    ensures Bytes(x, 0) == 0 && Count(x, 0) == 0 && Repeat(256, 15, 0) == 0
  {
  }

  /** The quick count is the number of bits, for every word. */
  lemma CountBitsIsCount(num: uint64)
    ensures CountBits(num) == Count(num, 64) == |Ones(num, 64)|
  {
    hide And, Count, Pairs, Nibbles, Bytes, Repeat;
    Pow2Of64();
    Masks();
    PairsStep(num, 32);
    NibblesStep(num, 16);
    NibblesBound(num, 16);
    BytesStep(num, 8);
    BytesSum(num);
    CountIsSize(num, 64);
    hide Pow2;
    var n1 := Pairs(num, 32);
    assert Wrap(num - And(num / 2, M1)) == n1;
    var n2 := Nibbles(num, 16);
    assert Wrap(And(n1, M2) + And(n1 / 4, M2)) == n2;
    assert Wrap(n2 + n2 / 16) == n2 + n2 / 16;
  }

  // The distance between hashes

  /** The number of places in which two words differ. */
  function Distance(a: nat, b: nat): nat {
    |set k | 0 <= k < 64 && Bit(a, k) != Bit(b, k)|
  }

  lemma DistanceIsCount(a: nat, b: nat)
    ensures Distance(a, b) == Count(Xor(a, b), 64)
  {
    hide Bit, Bitwise;
    CountIsSize(Xor(a, b), 64);
    forall k | 0 <= k < 64 ensures Bit(Xor(a, b), k) == (Bit(a, k) != Bit(b, k)) {
      BitwiseBit((x, y) => x != y, a, b, k);
    }
    assert Ones(Xor(a, b), 64) == set k | 0 <= k < 64 && Bit(a, k) != Bit(b, k);
  }

  /** The loop over the bits in `FindSimilarPicsTask.Run`. */
  method CountLoop(guess: uint64, target: uint64) returns (bitCount: nat)
    ensures bitCount == Distance(guess, target)
  {
    hide Bit, Pow2, Bitwise;
    var bits := Xor(guess, target);
    bitCount := 0;
    for i := 0 to 64
      invariant bitCount == Count(bits, i)
    {
      MaskTest(bits, i);
      if And(bits, Pow2(i)) > 0 {
        bitCount := bitCount + 1;
      }
    }
    DistanceIsCount(guess, target);
  }

  /** The quick count would give the same distance. */
  lemma QuickDistance(a: uint64, b: uint64)
    ensures Xor(a, b) < TWO_TO_THE_64 && CountBits(Xor(a, b)) == Distance(a, b)
  {
    hide CountBits, Count, Distance, Bitwise;
    Pow2Of64();
    BitwiseFits((x, y) => x != y, a, b, 64);
    CountBitsIsCount(Xor(a, b));
    DistanceIsCount(a, b);
  }

  // The hash of the low frequencies

  function AtMost(): (real, real) -> bool { (a: real, b: real) => a <= b }

  /** `sort.Float64s`. */
  function Sorted(s: seq<real>): seq<real> { Sort(s, AtMost()) }

  function AboveOf(m: real): real -> bool { (x: real) => x > m }

  /** How many numbers lie above a bound. */
  function Above(s: seq<real>, m: real): nat { |Select(s, AboveOf(m))| }

  lemma SortedIs(s: seq<real>, m: real)
    ensures multiset(Sorted(s)) == multiset(s) && |Sorted(s)| == |s| && Above(Sorted(s), m) == Above(s, m)
    ensures forall i, j :: 0 <= i < j < |s| ==> Sorted(s)[i] <= Sorted(s)[j]
  {
    hide Sort, Select;
    SortKeeps(s, AtMost());
    SortAscending(s, AtMost());
    CountPermute(Sorted(s), s, AboveOf(m));
    assert forall i, j :: 0 <= i < j < |s| ==> AtMost()(Sorted(s)[i], Sorted(s)[j]);
  }

  /** `phash0` on its 64 inputs. */
  method Phash0(inputs: seq<real>) returns (hash: nat)
    requires |inputs| == 64
    ensures hash < Pow2(64) && Ones(hash, 64) == set i | 0 <= i < 64 && inputs[i] > Median(inputs)
  {
    hide Bit, Pow2, Bitwise, Median;
    var flatvals := Sorted(inputs);
    SortedIs(inputs, 0.0);
    var mid := |flatvals| / 2;
    var median := (flatvals[mid - 1] + flatvals[mid]) / 2.0;
    MedianIs(inputs);
    hash := 0;
    OnesOfZero(0, 64);
    for i := 0 to 64
      invariant hash < Pow2(64) && Ones(hash, 64) == set k | 0 <= k < i && inputs[k] > median
    {
      if inputs[i] > median {
        OnesSet(hash, i, 64);
        Pow2Grows(i, 64);
        BitwiseFits((x, y) => x || y, hash, Pow2(i), 64);
        hash := Or(hash, Pow2(i));
      }
    }
  }

  /** Halfway between the two numbers in the middle. */
  function Median(inputs: seq<real>): real
    requires |inputs| == 64
  {
    SortedIs(inputs, 0.0);
    (Sorted(inputs)[31] + Sorted(inputs)[32]) / 2.0
  }

  lemma MedianIs(inputs: seq<real>)
    requires |inputs| == 64
    ensures |Sorted(inputs)| == 64 && Median(inputs) == (Sorted(inputs)[31] + Sorted(inputs)[32]) / 2.0
  {
    SortedIs(inputs, 0.0);
  }

  lemma AboveIsSize(s: seq<real>, m: real)
    ensures Above(s, m) == |set i | 0 <= i < |s| && s[i] > m|
  {
    SelectPlaces(s, AboveOf(m));
    assert (set i | 0 <= i < |s| && s[i] > m) == Places(s, AboveOf(m));
  }

  /** A hash has at most 32 bits, and all 32 exactly when the two middle inputs differ: so whenever all differ. */
  lemma HashHalfFull(inputs: seq<real>, hash: nat)
    requires |inputs| == 64 && Ones(hash, 64) == set i | 0 <= i < 64 && inputs[i] > Median(inputs)
    ensures Count(hash, 64) <= 32
    ensures |Sorted(inputs)| == 64 && (Count(hash, 64) == 32 <==> Sorted(inputs)[31] < Sorted(inputs)[32])
    ensures (forall i, j :: 0 <= i < j < 64 ==> inputs[i] != inputs[j]) ==> Count(hash, 64) == 32
  {
    hide Bit, Count, Sort, Select, Median;
    var m := Median(inputs);
    var f := Sorted(inputs);
    MedianIs(inputs);
    CountIsSize(hash, 64);
    AboveIsSize(inputs, m);
    SortedIs(inputs, m);
    assert f == f[..32] + f[32..];
    SelectConcat(f[..32], f[32..], AboveOf(m));
    SelectNone(f[..32], AboveOf(m));
    SelectFull(f[32..], AboveOf(m));
    if f[31] < f[32] {
      assert forall i :: 0 <= i < 32 ==> f[32..][i] >= f[32] > m;
    } else {
      assert f[32..][0] == m;
    }
    if forall i, j :: 0 <= i < j < 64 ==> inputs[i] != inputs[j] {
      DistinctSorted(inputs, f);
    }
  }

  lemma DistinctSorted(s: seq<real>, f: seq<real>)
    requires |s| == |f| == 64 && multiset(s) == multiset(f) && f[31] <= f[32]
    requires forall i, j :: 0 <= i < j < 64 ==> s[i] != s[j]
    ensures f[31] < f[32]
  {
    if f[31] == f[32] {
      TwiceInMultiset(f, 31, 32);
      OnceInMultiset(s, f[31]);
    }
  }

  // `transpose`

  /** In place; doing it twice changes nothing. */
  method Transpose(s: array2<real>)
    requires s.Length0 == s.Length1
    modifies s
    ensures forall i, k :: 0 <= i < s.Length0 && 0 <= k < s.Length0 ==> s[i, k] == old(s[k, i])
  {
    var n := s.Length0;
    for i := 0 to n
      invariant forall a, b :: 0 <= a < n && 0 <= b < n ==>
        s[a, b] == if a < i || b < i then old(s[b, a]) else old(s[a, b])
    {
      for k := i + 1 to n
        invariant forall a, b :: 0 <= a < n && 0 <= b < n ==>
          s[a, b] == if a < i || b < i || (a == i && b < k) || (b == i && a < k) then old(s[b, a]) else old(s[a, b])
      {
        s[i, k], s[k, i] := s[k, i], s[i, k];
      }
    }
  }
}
