/** `fixLibPqQuery` (be/schema/db/postgres.go): the k-th question mark of a statement becomes `$k`. */
module LibPq {
  import opened Prelude
  import opened ScanRange
  import opened ScanText

  /** The statement with its holes numbered from n. */
  function Dollar(ts: seq<Token>, n: nat): string {
    if ts == [] then ""
    else match ts[0]
      case Text(s) => s + Dollar(ts[1..], n)
      case Hole => "$" + Itoa(n) + Dollar(ts[1..], n + 1)
  }

  function CountHoles(ts: seq<Token>): nat {
    if ts == [] then 0 else (if ts[0] == Hole then 1 else 0) + CountHoles(ts[1..])
  }

  /** No text between the holes contains a question mark. */
  predicate Clean(ts: seq<Token>) {
    ts == [] || ((ts[0].Text? ==> '?' !in ts[0].s) && Clean(ts[1..]))
  }

  /** What `fixLibPqQuery` makes of a text, counting from n. */
  function Number(q: string, n: nat): string {
    if q == "" then ""
    else if q[0] == '?' then "$" + Itoa(n) + Number(q[1..], n + 1)
    else [q[0]] + Number(q[1..], n)
  }

  /** `strings.Split(q, "?")`. */
  function Split(q: string): (parts: seq<string>)
    ensures |parts| >= 1
  {
    if q == "" then [""]
    else
      var rest := Split(q[1..]);
      if q[0] == '?' then [""] + rest else [[q[0]] + rest[0]] + rest[1..]
  }

  /** The parts from the i-th on, each behind its number. */
  function Behind(parts: seq<string>, i: nat, n: nat): string
    requires i <= |parts|
    decreases |parts| - i
  {
    if i == |parts| then "" else "$" + Itoa(n) + parts[i] + Behind(parts, i + 1, n + 1)
  }

  lemma {:induction false} BehindTail(parts: seq<string>, rest: seq<string>, i: nat, n: nat)
    requires 1 <= i <= |parts| == |rest| && parts[1..] == rest[1..]
    ensures Behind(parts, i, n) == Behind(rest, i, n)
    decreases |parts| - i
  {
    if i < |parts| {
      assert parts[i] == parts[1..][i - 1] && rest[i] == rest[1..][i - 1];
      BehindTail(parts, rest, i + 1, n + 1);
    }
  }

  lemma {:induction false} BehindShift(head: string, rest: seq<string>, i: nat, n: nat)
    requires i <= |rest|
    ensures Behind([head] + rest, i + 1, n) == Behind(rest, i, n)
    decreases |rest| - i
  {
    hide Itoa;
    if i < |rest| {
      assert ([head] + rest)[i + 1] == rest[i];
      BehindShift(head, rest, i + 1, n + 1);
    }
  }

  lemma {:induction false} NumberSplit(q: string, n: nat)
    ensures Number(q, n) == Split(q)[0] + Behind(Split(q), 1, n)
  {
    if q != "" {
      var rest := Split(q[1..]);
      if q[0] == '?' {
        NumberSplit(q[1..], n + 1);
        BehindShift("", rest, 0, n);
        Assoc("$" + Itoa(n), rest[0], Behind(rest, 1, n + 1));
        assert "" + Behind(rest, 0, n) == Behind(rest, 0, n);
      } else {
        NumberSplit(q[1..], n);
        BehindTail(Split(q), rest, 1, n);
        Assoc([q[0]], rest[0], Behind(rest, 1, n));
      }
    }
  }

  method FixLibPqQuery(query: string) returns (b: string)
    ensures b == Number(query, 1)
  {
    var parts := Split(query);
    b := parts[0];
    NumberSplit(query, 1);
    for i := 1 to |parts|
      invariant b + Behind(parts, i, i) == Number(query, 1)
    {
      ghost var before := b;
      b := b + "$";
      b := b + Itoa(i);
      b := b + parts[i];
      Assoc(before, "$", Itoa(i));
      Assoc(before, "$" + Itoa(i), parts[i]);
      Assoc(before, "$" + Itoa(i) + parts[i], Behind(parts, i + 1, i + 1));
    }
    assert b + "" == b;
  }

  lemma {:induction false} NumberText(s: string, rest: string, n: nat)
    requires '?' !in s
    ensures Number(s + rest, n) == s + Number(rest, n)
  {
    if s == "" {
      assert s + rest == rest && s + Number(rest, n) == Number(rest, n);
    } else {
      assert (s + rest)[0] == s[0] && (s + rest)[1..] == s[1..] + rest;
      assert s[0] in s;
      NumberText(s[1..], rest, n);
      assert [s[0]] + s[1..] == s;
      Assoc([s[0]], s[1..], Number(rest, n));
    }
  }

  /** On the text of a statement, numbering the question marks numbers the holes. */
  lemma {:induction false} NumberPlain(ts: seq<Token>, n: nat)
    requires Clean(ts)
    ensures Number(Plain(ts), n) == Dollar(ts, n)
  {
    if ts != [] {
      match ts[0] {
        case Text(s) =>
          NumberText(s, Plain(ts[1..]), n);
          NumberPlain(ts[1..], n);
        case Hole =>
          var q := Plain(ts);
          assert q == "?" + Plain(ts[1..]) && q[0] == '?' && q[1..] == Plain(ts[1..]);
          NumberPlain(ts[1..], n + 1);
      }
    }
  }

  // Statements of scans

  lemma {:induction false} HolesConcat(a: seq<Token>, b: seq<Token>)
    ensures CountHoles(a + b) == CountHoles(a) + CountHoles(b)
    ensures Clean(a + b) <==> Clean(a) && Clean(b)
  {
    if a == [] {
      assert a + b == b;
    } else {
      assert (a + b)[0] == a[0] && (a + b)[1..] == a[1..] + b;
      HolesConcat(a[1..], b);
    }
  }

  predicate CleanNames(names: seq<string>, quote: Quoter) {
    forall i :: 0 <= i < |names| ==> '?' !in quote(names[i])
  }

  predicate CleanAnds(ands: seq<Atom>, quote: Quoter) {
    forall i :: 0 <= i < |ands| ==> '?' !in quote(ands[i].col)
  }

  /** Two tokens of which the second is a hole, or text. */
  lemma PairHoles(s: string, t: Token)
    requires '?' !in s && (t.Text? ==> '?' !in t.s)
    ensures Clean([Text(s), t]) && CountHoles([Text(s), t]) == if t == Hole then 1 else 0
  {
    HolesConcat([Text(s)], [t]);
    assert [Text(s)] + [t] == [Text(s), t];
  }

  lemma {:induction false} AndHoles(ands: seq<Atom>, quote: Quoter)
    requires CleanAnds(ands, quote)
    ensures Clean(AndTokens(ands, quote)) && CountHoles(AndTokens(ands, quote)) == |ands|
  {
    if ands != [] {
      AndHoles(ands[1..], quote);
      var rest := if |ands| == 1 then [] else [Text(" AND ")] + AndTokens(ands[1..], quote);
      HolesConcat([Text(" AND ")], AndTokens(ands[1..], quote));
      PairHoles(quote(ands[0].col) + " " + OpText(ands[0].op) + " ", Hole);
      HolesConcat(AtomTokens(ands[0], quote), rest);
    }
  }

  lemma {:induction false} OrHoles(clause: Clause, quote: Quoter)
    requires forall i :: 0 <= i < |clause| ==> CleanAnds(clause[i], quote)
    ensures Clean(OrTokens(clause, quote)) && CountHoles(OrTokens(clause, quote)) == Holes(clause)
  {
    NoHoles();
    if clause != [] {
      TextHoles("(");
      TextHoles(")");
      TextHoles(" OR ");
      hide CountHoles, Clean, AndTokens, CleanAnds;
      AndHoles(clause[0], quote);
      var inner := AndTokens(clause[0], quote);
      HolesConcat([Text("(")], inner);
      HolesConcat([Text("(")] + inner, [Text(")")]);
      OrHoles(clause[1..], quote);
      var rest := if |clause| == 1 then [] else [Text(" OR ")] + OrTokens(clause[1..], quote);
      HolesConcat([Text(" OR ")], OrTokens(clause[1..], quote));
      HolesConcat([Text("(")] + inner + [Text(")")], rest);
    }
  }

  lemma RangeCols(cols: seq<string>, n: nat, mid: Op, last: Op, quote: Quoter)
    requires n <= |cols| && CleanNames(cols, quote)
    ensures forall i :: 0 <= i < |RangeClause(cols, n, 0, mid, last)| ==>
              CleanAnds(RangeClause(cols, n, 0, mid, last)[i], quote)
  {
    RangeClauseAt(cols, n, 0, mid, last);
    var clause := RangeClause(cols, n, 0, mid, last);
    forall i | 0 <= i < |clause| ensures CleanAnds(clause[i], quote) {
      assert clause[i - 0] == Disjunct(cols, n, i, mid, last);
    }
  }

  lemma BoundHoles(b: Idx, mid: Op, last: Op, quote: Quoter)
    requires |b.vals| <= |b.cols| && CleanNames(b.cols, quote)
    ensures Clean(BoundTokens(b, mid, last, quote))
    ensures CountHoles(BoundTokens(b, mid, last, quote)) == |RangeArgs(b.vals, 0)|
  {
    if b.vals != [] {
      var clause := BoundClause(b, mid, last);
      RangeCols(b.cols, |b.vals|, mid, last, quote);
      OrHoles(clause, quote);
      HolesConcat([Text("(")], OrTokens(clause, quote));
      HolesConcat([Text("(")] + OrTokens(clause, quote), [Text(")")]);
      RangeHoles(b.cols, b.vals, 0, mid, last);
    }
  }

  lemma {:induction false} OrderHoles(cols: seq<string>, i: nat, reverse: bool, quote: Quoter)
    requires i <= |cols| && CleanNames(cols, quote)
    ensures Clean(OrderItems(cols, i, reverse, quote)) && CountHoles(OrderItems(cols, i, reverse, quote)) == 0
    decreases |cols| - i
  {
    if i < |cols| {
      OrderHoles(cols, i + 1, reverse, quote);
      PairHoles(quote(cols[i]), Text(DirText(reverse)));
      HolesConcat(if i != 0 then [Text(", ")] else [], [Text(quote(cols[i])), Text(DirText(reverse))]);
      HolesConcat(OrderItem(cols, i, reverse, quote), OrderItems(cols, i + 1, reverse, quote));
    }
  }

  lemma WhereHoles(o: Opts, quote: Quoter)
    requires RangeError(o) == None && CleanNames(Start(o).cols, quote) && CleanNames(Stop(o).cols, quote)
    ensures Clean(WhereTokens(o, quote)) && CountHoles(WhereTokens(o, quote)) == |WhereArgs(o)|
  {
    NoHoles();
    TextHoles(" WHERE ");
    TextHoles(" AND ");
    hide CountHoles, Clean, BoundTokens, RangeArgs, CleanNames;
    BoundHoles(Start(o), Gt, StartLast(o), quote);
    BoundHoles(Stop(o), Lt, StopLast(o), quote);
    HolesConcat(WhereToken(o), BoundTokens(Start(o), Gt, StartLast(o), quote));
    HolesConcat(AndToken(o), BoundTokens(Stop(o), Lt, StopLast(o), quote));
    HolesConcat(FromTokens(o, quote), ToTokens(o, quote));
  }

  lemma RangeStatementHoles(o: Opts, quote: Quoter)
    requires RangeError(o) == None && CleanNames(Start(o).cols, quote) && CleanNames(Stop(o).cols, quote)
    ensures Clean(SelectRange(o, quote)) && CountHoles(SelectRange(o, quote)) == |WhereArgs(o)|
  {
    TextHoles(" ORDER BY ");
    hide CountHoles, Clean, WhereTokens, WhereArgs, OrderItems, CleanNames;
    WhereHoles(o, quote);
    OrderHoles(OrderCols(o), 0, o.reverse, quote);
    HolesConcat([Text(" ORDER BY ")], OrderItems(OrderCols(o), 0, o.reverse, quote));
    HolesConcat(WhereTokens(o, quote), OrderTokens(OrderCols(o), o.reverse, quote));
  }

  /** The names and texts that the adapter puts into the statement have no question mark. */
  predicate CleanScan(name: string, o: Opts, adap: Adapter) {
    && CleanNames(["data", name], adap.quote) && '?' !in adap.lockText(o.lock)
    && CleanNames(Start(o).cols, adap.quote) && CleanNames(Stop(o).cols, adap.quote)
    && (o.prefix.Some? ==> CleanNames(o.prefix.value.cols, adap.quote))
  }

  lemma PrefixHoles(p: Idx, reverse: bool, quote: Quoter)
    requires |p.vals| <= |p.cols| && CleanNames(p.cols, quote)
    ensures Clean(PrefixTokens(p, reverse, quote)) && CountHoles(PrefixTokens(p, reverse, quote)) == |p.vals|
  {
    var equalities := if p.vals == [] then [] else [Text(" WHERE ")] + AndTokens(PrefixAtoms(p), quote);
    var rest := p.cols[|p.vals|..];
    var order := if |p.cols| == |p.vals| then [] else OrderTokens(rest, reverse, quote);
    NoHoles();
    TextHoles(" WHERE ");
    TextHoles(" ORDER BY ");
    hide CountHoles, Clean, AndTokens, OrderItems;
    AndHoles(PrefixAtoms(p), quote);
    HolesConcat([Text(" WHERE ")], AndTokens(PrefixAtoms(p), quote));
    forall i | 0 <= i < |rest| ensures '?' !in quote(rest[i]) {
      assert rest[i] == p.cols[|p.vals| + i];
    }
    OrderHoles(rest, 0, reverse, quote);
    HolesConcat([Text(" ORDER BY ")], OrderItems(rest, 0, reverse, quote));
    HolesConcat(equalities, order);
  }

  lemma {:induction false} ItoaClean(n: nat)
    ensures '?' !in Itoa(n)
  {
    if n >= 10 {
      ItoaClean(n / 10);
    }
  }

  lemma TextHoles(s: string)
    requires '?' !in s
    ensures Clean([Text(s)]) && CountHoles([Text(s)]) == 0
  {
  }

  lemma HeadHoles(name: string, adap: Adapter)
    requires CleanNames(["data", name], adap.quote)
    ensures Clean(HeadTokens(name, adap)) && CountHoles(HeadTokens(name, adap)) == 0
  {
    assert ["data", name][0] == "data" && ["data", name][1] == name;
    PairHoles("SELECT ", Text(adap.quote("data")));
    PairHoles(" FROM ", Text(adap.quote(name)));
    HolesConcat([Text("SELECT "), Text(adap.quote("data"))], [Text(" FROM "), Text(adap.quote(name))]);
    assert HeadTokens(name, adap) == [Text("SELECT "), Text(adap.quote("data"))] + [Text(" FROM "), Text(adap.quote(name))];
  }

  lemma LimitHoles(limit: int)
    ensures Clean(LimitTokens(limit)) && CountHoles(LimitTokens(limit)) == 0
  {
    if limit > 0 {
      ItoaClean(limit);
      PairHoles(" LIMIT ", Text(Itoa(limit)));
    }
  }

  /** Every statement that `buildScan` builds has as many holes as arguments, and the rewritten statement has them
      numbered 1, 2, ... in order: the k-th argument is bound to `$k`. */
  lemma StatementNumbered(name: string, o: Opts, adap: Adapter)
    requires ScanErrorOf(o) == None && PrefixFits(o) && CleanScan(name, o, adap)
    ensures CountHoles(ScanTokens(name, o, adap)) == |SelectArgs(o)|
    ensures Number(Plain(ScanTokens(name, o, adap)), 1) == Dollar(ScanTokens(name, o, adap), 1)
  {
    hide CountHoles, Clean, LimitTokens, HeadTokens, PrefixTokens, SelectRange, Plain;
    var a, b, c := HeadTokens(name, adap), SelectTokens(o, adap.quote), LimitTokens(o.limit);
    var d, e := [Text(adap.lockText(o.lock))], [Text(";")];
    HeadHoles(name, adap);
    LimitHoles(o.limit);
    TextHoles(adap.lockText(o.lock));
    TextHoles(";");
    NoHoles();
    if o.prefix.Some? {
      PrefixHoles(o.prefix.value, o.reverse, adap.quote);
    } else if HasRange(o) {
      RangeStatementHoles(o, adap.quote);
    }
    HolesConcat(a, b);
    HolesConcat(a + b, c);
    HolesConcat(a + b + c, d);
    HolesConcat(a + b + c + d, e);
    NumberPlain(ScanTokens(name, o, adap), 1);
  }

  lemma NoHoles()
    ensures Clean([]) && CountHoles([]) == 0
  {
  }

  /** Different parameters have different numbers. */
  lemma {:induction false} ItoaInjective(m: nat, n: nat)
    requires Itoa(m) == Itoa(n)
    ensures m == n
  {
    var s, t := Itoa(m), Itoa(n);
    assert s[|s| - 1] == '0' + (m % 10) as char && t[|t| - 1] == '0' + (n % 10) as char;
    if m >= 10 {
      assert s[..|s| - 1] == Itoa(m / 10);
    }
    if n >= 10 {
      assert t[..|t| - 1] == Itoa(n / 10);
    }
    if m >= 10 && n >= 10 {
      ItoaInjective(m / 10, n / 10);
    }
  }
}
