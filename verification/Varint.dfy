/** The order-preserving, prefix-free base-32 code of be/schema/varint.go.
    A string stands for a Go byte slice, one char a byte. */
module Varint {
  import opened Prelude

  datatype DecodeError = NoInput | InvalidLength | InvalidSymbol | Eof | Overflow | ExcessInput

  const SYMBOL_COUNT := 32

  // The tables

  /** `encodeTable`: the digits and the lower-case letters without i, l, o and u. */
  function Symbol(d: int): char
    requires 0 <= d < SYMBOL_COUNT
  {
    if d < 10 then '0' + d as char
    else if d < 18 then 'a' + (d - 10) as char
    else if d < 20 then 'j' + (d - 18) as char
    else if d < 22 then 'm' + (d - 20) as char
    else if d < 27 then 'p' + (d - 22) as char
    else 'v' + (d - 27) as char
  }

  /** One byte of `bytes.ToLower`. */
  function Lower(c: char): char {
    if 'A' <= c <= 'Z' then c - 'A' + 'a' else c
  }

  function LowerAll(s: string): (r: string)
    ensures |r| == |s|
    ensures forall i :: 0 <= i < |s| ==> r[i] == Lower(s[i])
  {
    if s == [] then [] else [Lower(s[0])] + LowerAll(s[1..])
  }

  /** `valueTable`: zero for a byte that is not a symbol, and for '0'. */
  function SymbolValue(c: char): (d: int)
    ensures 0 <= d < SYMBOL_COUNT
  {
    var l := Lower(c);
    if '0' <= l <= '9' then (l - '0') as int
    else if 'a' <= l <= 'h' then (l - 'a') as int + 10
    else if 'j' <= l <= 'k' then (l - 'j') as int + 18
    else if 'm' <= l <= 'n' then (l - 'm') as int + 20
    else if 'p' <= l <= 't' then (l - 'p') as int + 22
    else if 'v' <= l <= 'z' then (l - 'v') as int + 27
    else 0
  }

  predicate IsSymbol(c: char) {
    SymbolValue(c) != 0 || c == '0'
  }

  function Pow32(k: nat): (p: nat)
    ensures p > 0
  {
    if k == 0 then 1 else 32 * Pow32(k - 1)
  }

  /** `prefixg`, `prefixh`, ... are Base(0), Base(1), ...: the smallest number whose code has k + 2 symbols. */
  function Base(k: nat): nat {
    if k == 0 then 16 else Base(k - 1) + Pow32(k)
  }

  /** `lengthTable`: how many symbols a code has, from its first; zero if no code starts so. */
  function LengthTable(c: char): nat {
    if !IsSymbol(c) then 0
    else if SymbolValue(c) < 16 then 1
    else SymbolValue(c) - 14
  }

  /** `prefixDecodeTable`: the amount the first symbol stands for. */
  function PrefixTable(c: char): nat {
    var d := SymbolValue(c);
    if d < 16 then d else if d <= 28 then Base(d - 16) else 0
  }

  // The code as a function

  function Digits(m: nat, len: nat): (s: string)
    ensures |s| == len
  {
    if len == 0 then [] else Digits(m / 32, len - 1) + [Symbol(m % 32)]
  }

  function Number(s: string): nat {
    if s == [] then 0 else Number(s[..|s| - 1]) * 32 + SymbolValue(s[|s| - 1])
  }

  /** `num<<varbits + val` on 64 bits. */
  function ShiftIn(num: uint64, val: nat): uint64 {
    ((num * 32) % TWO_TO_THE_64 + val) % TWO_TO_THE_64
  }

  /** `num + prefix` on 64 bits. */
  function Sum(num: uint64, prefix: nat): uint64 {
    (num + prefix) % TWO_TO_THE_64
  }

  /** The accumulator of the decoder. */
  function Accumulate(s: string): uint64 {
    if s == [] then 0 else ShiftIn(Accumulate(s[..|s| - 1]), SymbolValue(s[|s| - 1]))
  }

  /** The table row that holds n, searched for upwards; everything from `prefixw` on is in the last one. */
  function Level(n: nat, k: nat): (r: nat)
    requires k <= 12 && Base(k) <= n
    ensures k <= r <= 12 && Base(r) <= n
    ensures r < 12 ==> n < Base(r + 1)
    decreases 12 - k
  {
    if k == 12 || n < Base(k + 1) then k else Level(n, k + 1)
  }

  function Encode(n: uint64): (s: string)
    ensures |s| >= 1
  {
    if n < 16 then [Symbol(n)]
    else
      var k := Level(n, 0);
      [Symbol(16 + k)] + Digits(n - Base(k), k + 1)
  }

  const MAX_UINT64: uint64 := TWO_TO_THE_64 - 1

  /** `maxValue`, which the source computes as the code of all ones; see MaxValueShape. */
  const MAX_VALUE := "weyyyyyyyyyyyf"
  const MAX_LENGTH := 14

  /** What the decoder computes from the first byte and the bytes after it, on 64 bits. */
  function Total(c: char, tail: string): uint64 {
    Sum(Accumulate(tail), PrefixTable(c))
  }

  /** The comparison of the whole input with `maxValue`. */
  predicate TooBig(raw: string) {
    LexLess(MAX_VALUE, LowerAll(raw))
  }

  predicate AllSymbols(s: string) {
    forall i :: 0 <= i < |s| ==> IsSymbol(s[i])
  }

  /** `DecodeBytes`: the number read and how many bytes it took. */
  function Decode(raw: string): Result<(int64, nat), DecodeError> {
    if |raw| == 0 then Err(NoInput)
    else
      var length := LengthTable(raw[0]);
      if length == 0 then Err(InvalidLength)
      else if length > |raw| then Err(Eof)
      else if length >= MAX_LENGTH && TooBig(raw) then Err(Overflow)
      else if !AllSymbols(raw[1..length]) then Err(InvalidSymbol)
      else Ok((ToInt64(Total(raw[0], raw[1..length])), length))
  }

  /** `DecodeAll`: the whole input must be one code. */
  function DecodeAll(raw: string): Result<int64, DecodeError> {
    match Decode(raw)
    case Err(e) => Err(e)
    case Ok((v, n)) => if n != |raw| then Err(ExcessInput) else Ok(v)
  }

  // Facts about the tables

  lemma BaseValues()
    ensures Base(12) == 1190112520884487216
    ensures Base(12) < TWO_TO_THE_64 < Base(13)
  {
    assert Pow32(1) == 32;
    assert Pow32(2) == 1024;
    assert Pow32(3) == 32768;
    assert Pow32(4) == 0x10_0000;
    assert Pow32(5) == 0x200_0000;
    assert Pow32(6) == 0x4000_0000;
    assert Pow32(7) == 0x8_0000_0000;
    assert Pow32(8) == 0x100_0000_0000;
    assert Pow32(9) == 0x2000_0000_0000;
    assert Pow32(10) == 0x4_0000_0000_0000;
    assert Pow32(11) == 0x80_0000_0000_0000;
    assert Pow32(12) == 0x1000_0000_0000_0000;
    assert Pow32(13) == 0x2_0000_0000_0000_0000;
    assert Base(3) == 33840;
    assert Base(6) == 1108378672;
    assert Base(9) == 36319351833648;
  }

  /** The closed form the source writes for its prefix constants. */
  lemma {:induction false} BaseIsSourceFormula(k: nat)
    ensures Base(k) == (Pow32(k) - 1) * SYMBOL_COUNT / (SYMBOL_COUNT - 1) + SYMBOL_COUNT / 2
  {
    BaseTimes31(k);
  }

  lemma {:induction false} BaseTimes31(k: nat)
    ensures 31 * (Base(k) - 16) == (Pow32(k) - 1) * 32
  {
    if k > 0 {
      BaseTimes31(k - 1);
    }
  }

  /** The value table inverts the symbol table up to case, and symbols are in byte order. */
  lemma SymbolRoundTrip(c: char, d: int)
    requires 0 <= d < SYMBOL_COUNT
    ensures IsSymbol(Symbol(d)) && SymbolValue(Symbol(d)) == d
    ensures IsSymbol(c) && SymbolValue(c) == d <==> Lower(c) == Symbol(d)
  {
    hide *;
    SymbolRead(d);
    LowerIsSymbol(c, d);
  }

  /** The digits of the code, in order. */
  lemma SymbolTable(d: int)
    requires 0 <= d < SYMBOL_COUNT
    ensures |"0123456789abcdefghjkmnpqrstvwxyz"| == SYMBOL_COUNT && Symbol(d) == "0123456789abcdefghjkmnpqrstvwxyz"[d]
  {
    assert "0123456789" + ("abcdefgh" + ("jk" + ("mn" + ("pqrst" + "vwxyz")))) == "0123456789abcdefghjkmnpqrstvwxyz";
  }

  lemma SymbolRead(d: int)
    requires 0 <= d < SYMBOL_COUNT
    ensures IsSymbol(Symbol(d)) && SymbolValue(Symbol(d)) == d
  {
  }

  lemma LowerIsSymbol(c: char, d: int)
    requires 0 <= d < SYMBOL_COUNT
    ensures IsSymbol(c) && SymbolValue(c) == d <==> Lower(c) == Symbol(d)
  {
  }

  lemma SymbolOrder(d: int, e: int)
    requires 0 <= d < e < SYMBOL_COUNT
    ensures Symbol(d) < Symbol(e)
  {
  }

  // Facts about digit strings

  lemma {:induction false} NumberOfDigits(m: nat, len: nat)
    requires m < Pow32(len)
    ensures Number(Digits(m, len)) == m
    ensures AllSymbols(Digits(m, len))
  {
    if len > 0 {
      NumberOfDigits(m / 32, len - 1);
      SymbolRoundTrip('0', m % 32);
      var s := Digits(m, len);
      assert s[..len - 1] == Digits(m / 32, len - 1);
    }
  }

  lemma {:induction false} DigitsOfNumber(s: string)
    requires AllSymbols(s)
    ensures Number(s) < Pow32(|s|)
    ensures Digits(Number(s), |s|) == LowerAll(s)
  {
    hide *;
    if s == [] {
      NoDigits();
    } else {
      var n := |s| - 1;
      LastSymbol(s);
      DigitsOfNumber(s[..n]);
      NumberMore(s);
      OneMoreFits(Number(s[..n]), SymbolValue(s[n]), Pow32(n));
      DigitsMore(Number(s[..n]), SymbolValue(s[n]), n);
      LowerMore(s[..n], s[n]);
      assert s == s[..n] + [s[n]];
    }
  }

  lemma NoDigits()
    ensures Digits(0, 0) == [] && Pow32(0) == 1
    ensures Number("") == 0 && LowerAll("") == ""
  {
  }

  lemma LastSymbol(s: string)
    requires s != [] && AllSymbols(s)
    ensures AllSymbols(s[..|s| - 1])
    ensures SymbolValue(s[|s| - 1]) < 32 && Symbol(SymbolValue(s[|s| - 1])) == Lower(s[|s| - 1])
  {
    hide Symbol, Lower, SymbolValue, IsSymbol;
    assert IsSymbol(s[|s| - 1]);
    LowerIsSymbol(s[|s| - 1], SymbolValue(s[|s| - 1]));
  }

  lemma OneMoreFits(q: nat, d: nat, p: nat)
    requires q < p && d < 32
    ensures q * 32 + d < 32 * p
  {
  }

  lemma LowerMore(s: string, c: char)
    ensures LowerAll(s + [c]) == LowerAll(s) + [Lower(c)]
  {
    hide Lower;
    var t := s + [c];
    assert forall i :: 0 <= i < |s| ==> t[i] == s[i];
    assert t[|s|] == c;
  }

  lemma NumberMore(s: string)
    requires s != []
    ensures Number(s) == Number(s[..|s| - 1]) * 32 + SymbolValue(s[|s| - 1])
    ensures Pow32(|s|) == 32 * Pow32(|s| - 1)
  {
  }

  lemma DigitsMore(q: nat, d: nat, len: nat)
    requires d < 32
    ensures Digits(q * 32 + d, len + 1) == Digits(q, len) + [Symbol(d)]
  {
  }

  lemma {:induction false} AccumulateIsNumber(s: string)
    ensures Accumulate(s) == Number(s) % TWO_TO_THE_64
  {
    if s != [] {
      var init := s[..|s| - 1];
      AccumulateIsNumber(init);
      var q := Number(init) / TWO_TO_THE_64;
      assert Number(init) == q * TWO_TO_THE_64 + Accumulate(init);
      assert Number(init) * 32 == (q * 32) * TWO_TO_THE_64 + Accumulate(init) * 32;
      ModSkip(Accumulate(init) * 32, SymbolValue(s[|s| - 1]), q * 32);
    }
  }

  lemma ModSkip(x: int, y: int, k: int)
    ensures (x % TWO_TO_THE_64 + y) % TWO_TO_THE_64 == (k * TWO_TO_THE_64 + x + y) % TWO_TO_THE_64
  {
    var q := x / TWO_TO_THE_64;
    assert x % TWO_TO_THE_64 + y == x + y - q * TWO_TO_THE_64;
    ModShift(x + y, -q);
    ModShift(x + y, k);
  }

  lemma ModShift(x: int, k: int)
    ensures (x + k * TWO_TO_THE_64) % TWO_TO_THE_64 == x % TWO_TO_THE_64
  {
    var a := x + k * TWO_TO_THE_64;
    assert a == (a / TWO_TO_THE_64) * TWO_TO_THE_64 + a % TWO_TO_THE_64;
    assert x == (x / TWO_TO_THE_64) * TWO_TO_THE_64 + x % TWO_TO_THE_64;
  }

  lemma {:induction false} DigitsOrder(m: nat, n: nat, len: nat)
    requires m < n < Pow32(len)
    ensures LexLess(Digits(m, len), Digits(n, len))
  {
    var (p, q) := (Digits(m / 32, len - 1), Digits(n / 32, len - 1));
    var (x, y) := ([Symbol(m % 32)], [Symbol(n % 32)]);
    if m / 32 < n / 32 {
      DigitsOrder(m / 32, n / 32, len - 1);
      LexLessExtend(p, q, x, y);
    } else {
      SymbolOrder(m % 32, n % 32);
      LexLessPrepend(p, x, y);
    }
  }

  // The shape of a code: a first symbol h, then Width(h) digits of what is left above First(h)

  function Width(h: nat): nat { if h < 16 then 0 else h - 15 }

  function First(h: nat): nat { if h < 16 then h else Base(h - 16) }

  lemma {:induction false} FirstMonotone(g: nat, h: nat)
    requires g < h
    ensures First(g) + Pow32(Width(g)) <= First(h)
    decreases h
  {
    if g + 1 < h {
      FirstMonotone(g, h - 1);
    }
  }

  lemma RowHolds(n: uint64, k: nat)
    requires n >= 16 && k == Level(n, 0)
    ensures n < Base(k) + Pow32(k + 1)
  {
    BaseValues();
    BaseMore(k);
    hide Base, Pow32;
  }

  lemma BaseMore(k: nat)
    ensures Base(k + 1) == Base(k) + Pow32(k + 1)
  {
  }

  lemma Shape(n: uint64) returns (h: nat, m: nat)
    ensures h <= 28
    ensures n == First(h) + m && m < Pow32(Width(h))
    ensures Encode(n) == [Symbol(h)] + Digits(m, Width(h))
  {
    hide Base, Pow32, Symbol, Digits;
    if n < 16 {
      h, m := n, 0;
      NoDigits();
    } else {
      FirstBase();
      var k := Level(n, 0);
      RowHolds(n, k);
      h, m := 16 + k, n - Base(k);
      assert Width(h) == k + 1 && First(h) == Base(k);
    }
  }

  /** A first symbol and digits within its range are the code of their number. */
  lemma ShapeUnique(n: uint64, h: nat, m: nat)
    requires n == First(h) + m && m < Pow32(Width(h))
    ensures h <= 28
    ensures Encode(n) == [Symbol(h)] + Digits(m, Width(h))
  {
    var k, l := Shape(n);
    OneShape(h, m, k, l);
  }

  lemma OneShape(h: nat, m: nat, k: nat, l: nat)
    requires m < Pow32(Width(h)) && l < Pow32(Width(k))
    requires First(h) + m == First(k) + l
    ensures h == k && m == l
  {
    if k < h { FirstMonotone(k, h); }
    if h < k { FirstMonotone(h, k); }
  }

  // The main results

  /** Byte order of codes is numeric order of the unsigned numbers. */
  lemma EncodeOrder(m: uint64, n: uint64)
    requires m < n
    ensures LexLess(Encode(m), Encode(n))
  {
    var g, x := Shape(m);
    var h, y := Shape(n);
    if h < g { FirstMonotone(h, g); }
    if g < h {
      SymbolOrder(g, h);
    } else {
      DigitsOrder(x, y, Width(g));
      LexLessPrepend([Symbol(g)], Digits(x, Width(g)), Digits(y, Width(g)));
    }
  }

  lemma EncodeOrderIff(m: uint64, n: uint64)
    ensures LexLess(Encode(m), Encode(n)) <==> m < n
  {
    if m < n {
      EncodeOrder(m, n);
    } else {
      if n < m { EncodeOrder(n, m); }
      if LexLess(Encode(m), Encode(n)) { LexLessAsymmetric(Encode(m), Encode(n)); }
    }
  }

  /** No code is a prefix of another one, whatever follows. */
  lemma PrefixFree(m: uint64, n: uint64, t: string, u: string)
    requires Encode(m) + t == Encode(n) + u
    ensures m == n && t == u
  {
    var g, x := Shape(m);
    var h, y := Shape(n);
    assert (Encode(m) + t)[0] == Symbol(g) && (Encode(n) + u)[0] == Symbol(h);
    SymbolRoundTrip('0', g);
    SymbolRoundTrip('0', h);
    assert Encode(m) == (Encode(m) + t)[..|Encode(m)|];
    assert Encode(n) == (Encode(n) + u)[..|Encode(n)|];
    assert t == (Encode(m) + t)[|Encode(m)|..];
    assert u == (Encode(n) + u)[|Encode(n)|..];
    if m < n {
      EncodeOrder(m, n);
      LexLessAsymmetric(Encode(m), Encode(n));
    } else if n < m {
      EncodeOrder(n, m);
      LexLessAsymmetric(Encode(n), Encode(m));
    }
  }

  /** The condition under which the decoder reads n from the front of the input. */
  predicate Reads(raw: string, n: uint64, length: nat) {
    && length <= |raw|
    && LowerAll(raw[..length]) == Encode(n)
    && (n == MAX_UINT64 ==> length == |raw|)
  }

  const MAX_REST: nat := MAX_UINT64 - 1190112520884487216

  /** The number whose digits are an 'e' and k times a 'y'. */
  function EThenYs(k: nat): nat {
    if k == 0 then 14 else EThenYs(k - 1) * 32 + 30
  }

  lemma {:induction false} DigitsOfEThenYs(k: nat)
    ensures Digits(EThenYs(k), k + 1) == ['e'] + seq(k, _ => 'y')
  {
    DigitsMore(if k == 0 then 0 else EThenYs(k - 1), if k == 0 then 14 else 30, k);
    hide Digits;
    if k > 0 {
      DigitsOfEThenYs(k - 1);
      assert seq(k - 1, _ => 'y') + ['y'] == seq(k, _ => 'y');
    }
  }

  lemma MaxRestIs(y: nat)
    requires y == EThenYs(11)
    ensures y * 32 + 15 == MAX_REST
  {
    assert EThenYs(4) == 0xef7bde;
    assert EThenYs(7) == 0x77bdef7bde;
  }

  lemma MaxRestDigits(k: nat, m: nat)
    requires m == EThenYs(k) * 32 + 15
    ensures Digits(m, k + 2) == ['e'] + seq(k, _ => 'y') + ['f']
  {
    DigitsOfEThenYs(k);
    assert Digits(m, k + 2) == Digits(EThenYs(k), k + 1) + [Symbol(15)];
  }

  lemma MaxValueSpelled(ys: string)
    requires ys == seq(11, _ => 'y')
    ensures MAX_VALUE == ['w'] + (['e'] + ys + ['f'])
  {
  }

  lemma MaxValueShape()
    ensures MAX_VALUE == Encode(MAX_UINT64)
    ensures MAX_VALUE == [Symbol(28)] + Digits(MAX_REST, 13)
    ensures MAX_REST < Pow32(13)
  {
    BaseValues();
    MaxRestIs(EThenYs(11));
    MaxRestDigits(11, MAX_REST);
    MaxValueSpelled(seq(11, _ => 'y'));
    ShapeUnique(MAX_UINT64, 28, MAX_REST);
  }

  lemma LowerSplit(s: string, n: nat)
    requires n <= |s|
    ensures LowerAll(s) == LowerAll(s[..n]) + LowerAll(s[n..])
  {
    hide LowerAll;
  }

  lemma LexLessEmpty(s: string)
    ensures LexLess("", s) <==> s != ""
  {
  }

  /** The comparison with `maxValue` of an input that starts with 'w' and thirteen symbols. */
  lemma OverflowCheck(raw: string, m: nat)
    requires |raw| >= 14 && m < Pow32(13)
    requires LowerAll(raw[..14]) == [Symbol(28)] + Digits(m, 13)
    ensures TooBig(raw) <==> m > MAX_REST || (m == MAX_REST && |raw| > 14)
  {
    hide Digits, Symbol, Pow32, LexLess;
    MaxValueShape();
    var top, code, rest := MAX_VALUE, LowerAll(raw[..14]), LowerAll(raw[14..]);
    LowerSplit(raw, 14);
    hide LowerAll;
    LexLessEmpty(rest);
    if MAX_REST < m {
      DigitsOrder(MAX_REST, m, 13);
      LexLessPrepend([Symbol(28)], Digits(MAX_REST, 13), Digits(m, 13));
      LexLessExtend(top, code, "", rest);
      assert top + "" == top;
    } else if m < MAX_REST {
      DigitsOrder(m, MAX_REST, 13);
      LexLessPrepend([Symbol(28)], Digits(m, 13), Digits(MAX_REST, 13));
      LexLessExtend(code, top, rest, "");
      assert top + "" == top;
      LexLessAsymmetric(LowerAll(raw), top);
    } else {
      LexLessPrepend(top, "", rest);
      assert top + "" == top;
    }
  }

  /** The first byte fixes the length, and the sum is the number if that fits. */
  lemma TotalIs(c: char, h: nat, tail: string)
    requires h <= 28 && Lower(c) == Symbol(h)
    requires First(h) + Number(tail) < TWO_TO_THE_64
    ensures IsSymbol(c) && SymbolValue(c) == h && LengthTable(c) == Width(h) + 1
    ensures Total(c, tail) == First(h) + Number(tail)
  {
    SymbolRoundTrip(c, h);
    AccumulateIsNumber(tail);
    AddBack(Number(tail), First(h));
  }

  lemma DecodeComplete(raw: string, n: uint64, length: nat)
    requires Reads(raw, n, length)
    ensures Decode(raw) == Ok((ToInt64(n), length))
  {
    var h, m := Shape(n);
    var code, tail := raw[..length], raw[1..length];
    assert Lower(raw[0]) == LowerAll(code)[0];
    assert LowerAll(tail) == Digits(m, Width(h)) by {
      assert LowerAll(tail) == LowerAll(code)[1..];
    }
    SymbolsOfLowered(tail, m);
    TotalIs(raw[0], h, tail);
    NoOverflow(raw, n, length, h, m);
  }

  lemma NoOverflow(raw: string, n: uint64, length: nat, h: nat, m: nat)
    requires Reads(raw, n, length)
    requires h <= 28 && n == First(h) + m && m < Pow32(Width(h)) && Encode(n) == [Symbol(h)] + Digits(m, Width(h))
    ensures length < MAX_LENGTH || !TooBig(raw)
  {
    MaxValueShape();
    if h == 28 {
      OverflowCheck(raw, m);
      BaseValues();
    }
  }

  lemma AddBack(x: nat, b: nat)
    requires x + b < TWO_TO_THE_64
    ensures Sum(x % TWO_TO_THE_64, b) == x + b
  {
  }

  lemma LowerKeepsValue(c: char)
    ensures SymbolValue(Lower(c)) == SymbolValue(c) && (IsSymbol(Lower(c)) <==> IsSymbol(c))
  {
  }

  lemma SymbolsOfLowered(s: string, m: nat)
    requires m < Pow32(|s|) && LowerAll(s) == Digits(m, |s|)
    ensures Number(s) == m
    ensures AllSymbols(s)
  {
    NumberOfDigits(m, |s|);
    var t := LowerAll(s);
    forall i | 0 <= i < |s| ensures IsSymbol(s[i]) && SymbolValue(s[i]) == SymbolValue(t[i]) {
      assert t[i] == Digits(m, |s|)[i];
      LowerKeepsValue(s[i]);
    }
    NumberByValues(s, t);
  }

  lemma {:induction false} NumberByValues(s: string, t: string)
    requires |s| == |t| && forall i :: 0 <= i < |s| ==> SymbolValue(s[i]) == SymbolValue(t[i])
    ensures Number(s) == Number(t)
  {
    if s != [] {
      NumberByValues(s[..|s| - 1], t[..|t| - 1]);
    }
  }

  lemma DecodeSound(raw: string, v: int64, length: nat)
    requires Decode(raw) == Ok((v, length))
    ensures Reads(raw, ToUint64(v), length)
  {
    AcceptedReads(raw, length);
    ConvertBack(Total(raw[0], raw[1..length]));
  }

  lemma AcceptedReads(raw: string, length: nat)
    requires 1 <= length <= |raw| && length == LengthTable(raw[0])
    requires length < MAX_LENGTH || !TooBig(raw)
    requires AllSymbols(raw[1..length])
    ensures Reads(raw, Total(raw[0], raw[1..length]), length)
  {
    var h, tail := SymbolValue(raw[0]), raw[1..length];
    SymbolRoundTrip(raw[0], h);
    DigitsOfNumber(tail);
    var m := Number(tail);
    assert LowerAll(raw[..length]) == [Symbol(h)] + LowerAll(tail);
    InRange(raw, length, h, m);
    TotalIs(raw[0], h, tail);
    ShapeUnique(First(h) + m, h, m);
  }

  /** An input that passes the comparison with `maxValue` stays within 64 bits. */
  lemma InRange(raw: string, length: nat, h: nat, m: nat)
    requires 1 <= length <= |raw| && h < SYMBOL_COUNT && length == Width(h) + 1
    requires m < Pow32(Width(h)) && LowerAll(raw[..length]) == [Symbol(h)] + Digits(m, Width(h))
    requires length < MAX_LENGTH || !TooBig(raw)
    ensures h <= 28 && First(h) + m < TWO_TO_THE_64
    ensures First(h) + m == MAX_UINT64 ==> length == |raw|
  {
    MaxValueShape();
    BaseValues();
    if h > 28 {
      SymbolOrder(28, h);
    } else if h == 28 {
      OverflowCheck(raw, m);
    } else {
      FirstMonotone(h, 28);
    }
  }

  /** `DecodeBytes` accepts exactly the inputs that start, up to case, with the code of a 64-bit number,
      except that the code of 2^64-1 must not be followed by anything; it never wraps around. */
  lemma DecodeExact(raw: string, v: int64, length: nat)
    ensures Decode(raw) == Ok((v, length)) <==> Reads(raw, ToUint64(v), length)
  {
    if Reads(raw, ToUint64(v), length) {
      DecodeComplete(raw, ToUint64(v), length);
    }
    if Decode(raw) == Ok((v, length)) {
      DecodeSound(raw, v, length);
    }
  }

  /** Every number survives encoding and decoding, also as the whole input. */
  lemma RoundTrip(v: int64)
    ensures Decode(Encode(ToUint64(v))) == Ok((v, |Encode(ToUint64(v))|))
    ensures DecodeAll(Encode(ToUint64(v))) == Ok(v)
  {
    var s := Encode(ToUint64(v));
    EncodeIsLower(ToUint64(v));
    assert s[..|s|] == s;
    DecodeExact(s, v, |s|);
  }

  /** With more input after the code the number is still read, unless it is -1. */
  lemma RoundTripWithTail(v: int64, t: string)
    requires t != []
    ensures v != -1 ==> Decode(Encode(ToUint64(v)) + t) == Ok((v, |Encode(ToUint64(v))|))
    ensures v == -1 ==> Decode(Encode(ToUint64(v)) + t) == Err(Overflow)
  {
    var s := Encode(ToUint64(v));
    var raw := s + t;
    EncodeIsLower(ToUint64(v));
    assert raw[..|s|] == s;
    if v != -1 {
      DecodeExact(raw, v, |s|);
    } else {
      MaxValueShape();
      SymbolRoundTrip('w', 28);
      OverflowCheck(raw, MAX_REST);
    }
  }

  lemma {:induction false} DigitsAreLower(m: nat, len: nat)
    ensures LowerAll(Digits(m, len)) == Digits(m, len)
  {
    if len > 0 {
      DigitsAreLower(m / 32, len - 1);
      SymbolRoundTrip(Symbol(m % 32), m % 32);
    }
  }

  lemma EncodeIsLower(n: uint64)
    ensures LowerAll(Encode(n)) == Encode(n)
  {
    var h, m := Shape(n);
    DigitsAreLower(m, Width(h));
    SymbolRoundTrip(Symbol(h), h);
  }

  // The loops of the source

  /** `Append`, which looks for the table row of n and then fills the suffix from its end. */
  method Append(v: int64, dest: string) returns (r: string)
    ensures r == dest + Encode(ToUint64(v))
  {
    hide Base, Digits;
    var n := ToUint64(v);
    if n < 16 {
      return dest + [Symbol(n)];
    }
    FirstBase();
    var k := 0;
    while k < 12 && n >= Base(k + 1)
      invariant 0 <= k <= 12 && Base(k) <= n
      invariant Level(n, 0) == Level(n, k)
    {
      k := k + 1;
    }
    n := n - Base(k);
    var suffix := new char[k + 2];
    suffix[0] := Symbol(16 + k);
    FillDigits(suffix, n);
    r := dest + suffix[..];
  }

  lemma FirstBase()
    ensures Base(0) == 16
  {
  }

  /** The second loop of `Append`. */
  method FillDigits(suffix: array<char>, n: nat)
    requires suffix.Length >= 1
    modifies suffix
    ensures suffix[..] == [old(suffix[0])] + Digits(n, suffix.Length - 1)
  {
    var m, i := n, suffix.Length - 1;
    while i >= 1
      invariant 0 <= i < suffix.Length && m >= 0
      invariant suffix[0] == old(suffix[0])
      invariant Digits(n, suffix.Length - 1) == Digits(m, i) + suffix[i + 1..]
    {
      suffix[i] := Symbol(m % SYMBOL_COUNT);
      assert suffix[i..] == [suffix[i]] + suffix[i + 1..];
      m := m / SYMBOL_COUNT;
      i := i - 1;
    }
    assert suffix[..] == [suffix[0]] + suffix[1..];
  }

  /** `DecodeBytes`. */
  method DecodeBytes(raw: string) returns (r: Result<(int64, nat), DecodeError>)
    ensures r == Decode(raw)
  {
    if |raw| == 0 {
      return Err(NoInput);
    }
    var length := LengthTable(raw[0]);
    if length == 0 {
      return Err(InvalidLength);
    }
    if length > |raw| {
      return Err(Eof);
    }
    if length >= MAX_LENGTH && TooBig(raw) {
      return Err(Overflow);
    }
    var num := ReadDigits(raw[1..length]);
    if num.None? {
      return Err(InvalidSymbol);
    }
    return Ok((ToInt64(Sum(num.value, PrefixTable(raw[0]))), length));
  }

  lemma AccumulateMore(s: string, c: char)
    ensures Accumulate(s + [c]) == ShiftIn(Accumulate(s), SymbolValue(c))
    ensures AllSymbols(s + [c]) <==> AllSymbols(s) && IsSymbol(c)
  {
    hide ShiftIn;
    assert (s + [c])[..|s|] == s;
    if AllSymbols(s + [c]) {
      assert forall i :: 0 <= i < |s| ==> (s + [c])[i] == s[i];
      assert (s + [c])[|s|] == c;
    }
  }

  /** The loop of `DecodeBytes`; None is the error return for a byte that is no symbol. */
  method ReadDigits(tail: string) returns (num: Option<uint64>)
    ensures num == if AllSymbols(tail) then Some(Accumulate(tail)) else None
  {
    hide ShiftIn;
    var sum: uint64, i := 0, 0;
    while i < |tail|
      invariant 0 <= i <= |tail|
      invariant sum == Accumulate(tail[..i]) && AllSymbols(tail[..i])
    {
      var val := SymbolValue(tail[i]);
      if val == 0 && tail[i] != '0' {
        assert !IsSymbol(tail[i]);
        return None;
      }
      AccumulateMore(tail[..i], tail[i]);
      assert tail[..i + 1] == tail[..i] + [tail[i]];
      sum := ShiftIn(sum, val);
      i := i + 1;
    }
    assert tail[..i] == tail;
    return Some(sum);
  }
}
