/** The range scans of be/schema/db/db.go: the text of a statement, its arguments, and what it selects. */
module ScanRange {
  import opened Prelude

  // Statements

  datatype Op = Eq | Gt | Ge | Lt | Le

  function OpText(op: Op): string {
    match op case Eq => "=" case Gt => ">" case Ge => ">=" case Lt => "<" case Le => "<="
  }

  /** The comparison of a column with the next argument. */
  datatype Atom = Atom(col: string, op: Op)

  /** A disjunction of conjunctions. */
  type Clause = seq<seq<Atom>>

  /** A statement is text with holes for its arguments. */
  datatype Token = Text(s: string) | Hole

  type Quoter = string -> string

  function Join(parts: seq<string>, sep: string): string {
    if parts == [] then ""
    else if |parts| == 1 then parts[0]
    else parts[0] + sep + Join(parts[1..], sep)
  }

  /** The statement as database/sql takes it, every hole a question mark. */
  function Plain(ts: seq<Token>): string {
    if ts == [] then "" else PlainToken(ts[0]) + Plain(ts[1..])
  }

  function PlainToken(t: Token): string {
    match t case Text(s) => s case Hole => "?"
  }

  function AtomTokens(a: Atom, quote: Quoter): seq<Token> {
    [Text(quote(a.col) + " " + OpText(a.op) + " "), Hole]
  }

  function AndTokens(ands: seq<Atom>, quote: Quoter): seq<Token> {
    if ands == [] then []
    else
      AtomTokens(ands[0], quote)
      + (if |ands| == 1 then [] else [Text(" AND ")] + AndTokens(ands[1..], quote))
  }

  function OrTokens(clause: Clause, quote: Quoter): seq<Token> {
    if clause == [] then []
    else
      [Text("(")] + AndTokens(clause[0], quote) + [Text(")")]
      + (if |clause| == 1 then [] else [Text(" OR ")] + OrTokens(clause[1..], quote))
  }

  function ClauseTokens(clause: Clause, quote: Quoter): seq<Token> {
    [Text("(")] + OrTokens(clause, quote) + [Text(")")]
  }

  // What a clause means: the arguments are bound to the holes in order

  type Row = string -> int

  predicate OpHolds(op: Op, x: int, v: int) {
    match op case Eq => x == v case Gt => x > v case Ge => x >= v case Lt => x < v case Le => x <= v
  }

  predicate AndHolds(ands: seq<Atom>, row: Row, args: seq<int>)
    requires |args| == |ands|
  {
    forall i :: 0 <= i < |ands| ==> OpHolds(ands[i].op, row(ands[i].col), args[i])
  }

  function Holes(clause: Clause): nat {
    if clause == [] then 0 else |clause[0]| + Holes(clause[1..])
  }

  predicate ClauseHolds(clause: Clause, row: Row, args: seq<int>)
    requires |args| == Holes(clause)
  {
    clause != []
    && (AndHolds(clause[0], row, args[..|clause[0]|]) || ClauseHolds(clause[1..], row, args[|clause[0]|..]))
  }

  // The clause of `buildRange`

  /** The disjunct for column i: equality on the columns before, a comparison on it. */
  function Disjunct(cols: seq<string>, n: nat, i: nat, mid: Op, last: Op): (ands: seq<Atom>)
    requires i < n <= |cols|
    ensures |ands| == i + 1
  {
    seq(i, k requires 0 <= k < i => Atom(cols[k], Eq)) + [Atom(cols[i], if i == n - 1 then last else mid)]
  }

  function RangeClause(cols: seq<string>, n: nat, i: nat, mid: Op, last: Op): Clause
    requires i <= n <= |cols|
    decreases n - i
  {
    if i == n then [] else [Disjunct(cols, n, i, mid, last)] + RangeClause(cols, n, i + 1, mid, last)
  }

  function RangeArgs(vals: seq<int>, i: nat): seq<int>
    requires i <= |vals|
    decreases |vals| - i
  {
    if i == |vals| then [] else vals[..i + 1] + RangeArgs(vals, i + 1)
  }

  lemma {:induction false} RangeHoles(cols: seq<string>, vals: seq<int>, i: nat, mid: Op, last: Op)
    requires i <= |vals| <= |cols|
    ensures Holes(RangeClause(cols, |vals|, i, mid, last)) == |RangeArgs(vals, i)|
    decreases |vals| - i
  {
    if i < |vals| {
      RangeHoles(cols, vals, i + 1, mid, last);
    }
  }

  // Lexicographic comparison of tuples

  predicate TupleLess(a: seq<int>, b: seq<int>)
    requires |a| == |b|
  {
    a != [] && (a[0] < b[0] || (a[0] == b[0] && TupleLess(a[1..], b[1..])))
  }

  /** The values of a row in the given columns. */
  function Key(row: Row, cols: seq<string>): (k: seq<int>)
    ensures |k| == |cols| && forall i :: 0 <= i < |cols| ==> k[i] == row(cols[i])
  {
    if cols == [] then [] else [row(cols[0])] + Key(row, cols[1..])
  }

  /** The order that a range with these operators asks for between a key and its bound. */
  predicate Beyond(mid: Op, last: Op, key: seq<int>, bound: seq<int>)
    requires |key| == |bound|
  {
    if mid == Gt then
      if last == Ge then !TupleLess(key, bound) else TupleLess(bound, key)
    else
      if last == Le then !TupleLess(bound, key) else TupleLess(key, bound)
  }

  predicate RangeOps(mid: Op, last: Op) {
    (mid == Gt && (last == Gt || last == Ge)) || (mid == Lt && (last == Lt || last == Le))
  }

  lemma {:induction false} TupleTotal(a: seq<int>, b: seq<int>)
    requires |a| == |b|
    ensures TupleLess(a, b) || TupleLess(b, a) || a == b
    ensures !(TupleLess(a, b) && TupleLess(b, a))
    ensures a == b ==> !TupleLess(a, b)
  {
    if a != [] {
      TupleTotal(a[1..], b[1..]);
    }
  }

  predicate Agree(a: seq<int>, b: seq<int>, n: nat)
    requires n <= |a| && n <= |b|
  {
    forall k :: 0 <= k < n ==> a[k] == b[k]
  }

  lemma BeyondStep(mid: Op, last: Op, key: seq<int>, bound: seq<int>)
    requires |key| == |bound| > 0 && RangeOps(mid, last)
    ensures |key| == 1 ==> (Beyond(mid, last, key, bound) <==> OpHolds(last, key[0], bound[0]))
    ensures |key| > 1 ==>
              (Beyond(mid, last, key, bound) <==>
               OpHolds(mid, key[0], bound[0]) || (key[0] == bound[0] && Beyond(mid, last, key[1..], bound[1..])))
  {
    TupleTotal(key[1..], bound[1..]);
  }

  lemma ClauseStep(cols: seq<string>, vals: seq<int>, i: nat, mid: Op, last: Op, row: Row)
    requires i < |vals| <= |cols|
    requires Holes(RangeClause(cols, |vals|, i, mid, last)) == |RangeArgs(vals, i)|
    requires Holes(RangeClause(cols, |vals|, i + 1, mid, last)) == |RangeArgs(vals, i + 1)|
    ensures ClauseHolds(RangeClause(cols, |vals|, i, mid, last), row, RangeArgs(vals, i))
            <==> AndHolds(Disjunct(cols, |vals|, i, mid, last), row, vals[..i + 1])
                 || ClauseHolds(RangeClause(cols, |vals|, i + 1, mid, last), row, RangeArgs(vals, i + 1))
    ensures i + 1 == |vals| ==>
              !ClauseHolds(RangeClause(cols, |vals|, i + 1, mid, last), row, RangeArgs(vals, i + 1))
  {
    var clause, args := RangeClause(cols, |vals|, i, mid, last), RangeArgs(vals, i);
    assert args[..i + 1] == vals[..i + 1] && args[i + 1..] == RangeArgs(vals, i + 1);
    assert clause[0] == Disjunct(cols, |vals|, i, mid, last);
    assert clause[1..] == RangeClause(cols, |vals|, i + 1, mid, last);
  }

  /** The comparison from column i on, one column at a time. */
  predicate BeyondFrom(mid: Op, last: Op, key: seq<int>, bound: seq<int>, i: nat)
    requires i < |key| == |bound|
    decreases |key| - i
  {
    if i + 1 == |key| then OpHolds(last, key[i], bound[i])
    else OpHolds(mid, key[i], bound[i]) || (key[i] == bound[i] && BeyondFrom(mid, last, key, bound, i + 1))
  }

  lemma {:induction false} BeyondFromIsBeyond(mid: Op, last: Op, key: seq<int>, bound: seq<int>, i: nat)
    requires i < |key| == |bound| && RangeOps(mid, last)
    ensures BeyondFrom(mid, last, key, bound, i) <==> Beyond(mid, last, key[i..], bound[i..])
    decreases |key| - i
  {
    BeyondStep(mid, last, key[i..], bound[i..]);
    if i + 1 < |key| {
      BeyondFromIsBeyond(mid, last, key, bound, i + 1);
      assert key[i..][1..] == key[i + 1..] && bound[i..][1..] == bound[i + 1..];
    }
  }

  /** From disjunct i on, the clause says that the first i columns equal the bound and the rest is beyond it. */
  lemma {:induction false} RangeFrom(cols: seq<string>, vals: seq<int>, key: seq<int>, i: nat, mid: Op, last: Op,
                                     row: Row)
    requires i < |vals| <= |cols| && key == Key(row, cols[..|vals|])
    requires Holes(RangeClause(cols, |vals|, i, mid, last)) == |RangeArgs(vals, i)|
    ensures ClauseHolds(RangeClause(cols, |vals|, i, mid, last), row, RangeArgs(vals, i))
            <==> Agree(key, vals, i) && BeyondFrom(mid, last, key, vals, i)
    decreases |vals| - i
  {
    RangeHoles(cols, vals, i + 1, mid, last);
    ClauseStep(cols, vals, i, mid, last, row);
    DisjunctHolds(cols, vals, i, mid, last, row);
    if i + 1 < |vals| {
      RangeFrom(cols, vals, key, i + 1, mid, last, row);
      assert Agree(key, vals, i + 1) <==> Agree(key, vals, i) && key[i] == vals[i];
    }
  }

  lemma DisjunctHolds(cols: seq<string>, vals: seq<int>, i: nat, mid: Op, last: Op, row: Row)
    requires i < |vals| <= |cols|
    ensures var key := Key(row, cols[..|vals|]);
            AndHolds(Disjunct(cols, |vals|, i, mid, last), row, vals[..i + 1])
            <==> Agree(key, vals, i) && OpHolds(if i == |vals| - 1 then last else mid, key[i], vals[i])
  {
    var key, ands := Key(row, cols[..|vals|]), Disjunct(cols, |vals|, i, mid, last);
    if AndHolds(ands, row, vals[..i + 1]) {
      forall k | 0 <= k < i ensures key[k] == vals[k] {
        assert ands[k] == Atom(cols[k], Eq);
      }
      assert ands[i].col == cols[i];
    }
  }

  /** A row satisfies the clause of `buildRange` exactly when its key is beyond the bound, lexicographically. */
  lemma RangeMeaning(cols: seq<string>, vals: seq<int>, mid: Op, last: Op, row: Row)
    requires 0 < |vals| <= |cols| && RangeOps(mid, last)
    ensures Holes(RangeClause(cols, |vals|, 0, mid, last)) == |RangeArgs(vals, 0)|
    ensures ClauseHolds(RangeClause(cols, |vals|, 0, mid, last), row, RangeArgs(vals, 0))
            <==> Beyond(mid, last, Key(row, cols[..|vals|]), vals)
  {
    RangeHoles(cols, vals, 0, mid, last);
    var key := Key(row, cols[..|vals|]);
    RangeFrom(cols, vals, key, 0, mid, last, row);
    BeyondFromIsBeyond(mid, last, key, vals, 0);
    assert key[0..] == key && vals[0..] == vals;
  }

  // `buildRange` itself: the text is that of the clause

  function AtomText(a: Atom, quote: Quoter): string {
    quote(a.col) + " " + OpText(a.op) + " ?"
  }

  lemma {:induction false} PlainConcat(a: seq<Token>, b: seq<Token>)
    ensures Plain(a + b) == Plain(a) + Plain(b)
  {
    if a == [] {
      assert a + b == b;
    } else {
      PlainConcat(a[1..], b);
      assert (a + b)[0] == a[0] && (a + b)[1..] == a[1..] + b;
      Assoc(PlainToken(a[0]), Plain(a[1..]), Plain(b));
    }
  }

  lemma Assoc(a: string, b: string, c: string)
    ensures (a + b) + c == a + (b + c)
  {
  }

  lemma PlainOne(t: Token)
    ensures Plain([t]) == PlainToken(t)
  {
  }

  lemma PlainAtom(a: Atom, quote: Quoter)
    ensures Plain(AtomTokens(a, quote)) == AtomText(a, quote)
  {
    var front := Text(quote(a.col) + " " + OpText(a.op) + " ");
    PlainConcat([front], [Hole]);
    PlainOne(front);
    PlainOne(Hole);
    Assoc(quote(a.col) + " " + OpText(a.op), " ", "?");
  }

  lemma {:induction false} JoinAnds(parts: seq<string>, ands: seq<Atom>, quote: Quoter)
    requires |parts| == |ands| && forall k :: 0 <= k < |ands| ==> parts[k] == AtomText(ands[k], quote)
    ensures Join(parts, " AND ") == Plain(AndTokens(ands, quote))
  {
    if ands != [] {
      var head := AtomTokens(ands[0], quote);
      PlainAtom(ands[0], quote);
      if |ands| == 1 {
        PlainConcat(head, []);
      } else {
        JoinAnds(parts[1..], ands[1..], quote);
        PlainSeparated(head, " AND ", AndTokens(ands[1..], quote));
      }
    }
  }

  lemma PlainSeparated(head: seq<Token>, sep: string, rest: seq<Token>)
    ensures Plain(head + ([Text(sep)] + rest)) == Plain(head) + sep + Plain(rest)
  {
    PlainOne(Text(sep));
    PlainConcat([Text(sep)], rest);
    PlainConcat(head, [Text(sep)] + rest);
    Assoc(Plain(head), sep, Plain(rest));
  }

  lemma PlainParens(ts: seq<Token>)
    ensures Plain([Text("(")] + ts + [Text(")")]) == "(" + Plain(ts) + ")"
  {
    PlainOne(Text("("));
    PlainOne(Text(")"));
    PlainConcat([Text("(")], ts);
    PlainConcat([Text("(")] + ts, [Text(")")]);
  }

  function OrText(ands: seq<Atom>, quote: Quoter): string {
    "(" + Plain(AndTokens(ands, quote)) + ")"
  }

  lemma {:induction false} JoinOrs(parts: seq<string>, clause: Clause, quote: Quoter)
    requires |parts| == |clause| && forall k :: 0 <= k < |clause| ==> parts[k] == OrText(clause[k], quote)
    ensures Join(parts, " OR ") == Plain(OrTokens(clause, quote))
  {
    if clause != [] {
      var head := [Text("(")] + AndTokens(clause[0], quote) + [Text(")")];
      PlainParens(AndTokens(clause[0], quote));
      if |clause| == 1 {
        PlainConcat(head, []);
      } else {
        JoinOrs(parts[1..], clause[1..], quote);
        PlainSeparated(head, " OR ", OrTokens(clause[1..], quote));
      }
    }
  }

  lemma {:induction false} RangeClauseAt(cols: seq<string>, n: nat, i: nat, mid: Op, last: Op)
    requires i <= n <= |cols|
    ensures |RangeClause(cols, n, i, mid, last)| == n - i
    ensures forall k :: i <= k < n ==> RangeClause(cols, n, i, mid, last)[k - i] == Disjunct(cols, n, k, mid, last)
    decreases n - i
  {
    if i < n {
      RangeClauseAt(cols, n, i + 1, mid, last);
      var rest := RangeClause(cols, n, i + 1, mid, last);
      assert RangeClause(cols, n, i, mid, last) == [Disjunct(cols, n, i, mid, last)] + rest;
    }
  }

  datatype ScanError = MoreValsThanCols | StartWithPrefix | StopWithPrefix | TwoStarts | TwoStops | NegativeLimit

  /** The body of the outer loop of `buildRange`: one disjunct and its arguments. */
  method BuildDisjunct(cols: seq<string>, vals: seq<int>, i: nat, mid: Op, last: Op, quote: Quoter)
    returns (or: string, args: seq<int>)
    requires i < |vals| <= |cols|
    ensures or == OrText(Disjunct(cols, |vals|, i, mid, last), quote)
    ensures args == vals[..i + 1]
  {
    var ands := [];
    args := [];
    for k := 0 to i
      invariant |ands| == k && args == vals[..k]
      invariant forall j :: 0 <= j < k ==> ands[j] == AtomText(Atom(cols[j], Eq), quote)
    {
      ands := ands + [AtomText(Atom(cols[k], Eq), quote)];
      args := args + [vals[k]];
    }
    if i == |vals| - 1 {
      ands := ands + [AtomText(Atom(cols[i], last), quote)];
    } else {
      ands := ands + [AtomText(Atom(cols[i], mid), quote)];
    }
    args := args + [vals[i]];
    JoinAnds(ands, Disjunct(cols, |vals|, i, mid, last), quote);
    or := "(" + Join(ands, " AND ") + ")";
  }

  lemma RangeText(ors: seq<string>, cols: seq<string>, n: nat, mid: Op, last: Op, quote: Quoter)
    requires |ors| == n <= |cols|
    requires forall j :: 0 <= j < n ==> ors[j] == OrText(Disjunct(cols, n, j, mid, last), quote)
    ensures "(" + Join(ors, " OR ") + ")" == Plain(ClauseTokens(RangeClause(cols, n, 0, mid, last), quote))
  {
    var clause := RangeClause(cols, n, 0, mid, last);
    RangeClauseAt(cols, n, 0, mid, last);
    hide RangeClause, Disjunct, OrText, Join, Plain, OrTokens;
    assert forall j :: 0 <= j < n ==> clause[j - 0] == clause[j];
    JoinOrs(ors, clause, quote);
    PlainParens(OrTokens(clause, quote));
  }

  lemma RangeArgsStep(args: seq<int>, vals: seq<int>, i: nat)
    requires i < |vals|
    ensures args + RangeArgs(vals, i) == (args + vals[..i + 1]) + RangeArgs(vals, i + 1)
  {
  }

  /** `buildRange`. */
  method BuildRange(cols: seq<string>, vals: seq<int>, mid: Op, last: Op, quote: Quoter)
    returns (r: Result<(string, seq<int>), ScanError>)
    ensures |vals| > |cols| ==> r == Err(MoreValsThanCols)
    ensures |vals| <= |cols| ==>
              r == Ok((Plain(ClauseTokens(RangeClause(cols, |vals|, 0, mid, last), quote)), RangeArgs(vals, 0)))
  {
    if |vals| > |cols| {
      return Err(MoreValsThanCols);
    }
    var args: seq<int>, ors: seq<string> := [], [];
    for i := 0 to |vals|
      invariant args + RangeArgs(vals, i) == RangeArgs(vals, 0)
      invariant |ors| == i
      invariant forall j :: 0 <= j < i ==> ors[j] == OrText(Disjunct(cols, |vals|, j, mid, last), quote)
    {
      var or, more := BuildDisjunct(cols, vals, i, mid, last, quote);
      RangeArgsStep(args, vals, i);
      args, ors := args + more, ors + [or];
    }
    RangeText(ors, cols, |vals|, mid, last, quote);
    assert args + [] == args;
    return Ok(("(" + Join(ors, " OR ") + ")", args));
  }
}
