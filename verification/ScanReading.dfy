/** Reading back the statement of a scan (`buildScan` in be/schema/db/db.go): the words of its text say what the
    options ask for. */
module ScanReading {
  import opened Prelude
  import opened ScanRange
  import opened ScanText
  import opened Sql

  // What an adapter must do for the text to be read

  /** `Quote` of every adapter, on a name that it does not refuse. */
  predicate Delimits(quote: Quoter, q: char, name: string) {
    IsQuote(q) && q !in name && quote(name) == [q] + name + [q]
  }

  predicate DelimitsAll(quote: Quoter, q: char, names: seq<string>) {
    forall i :: 0 <= i < |names| ==> Delimits(quote, q, names[i])
  }

  /** What `LockStmt` of some adapter writes. */
  predicate IsLockText(s: string) {
    s == "" || s == " FOR SHARE" || s == " FOR UPDATE" || s == " LOCK IN SHARE MODE"
  }

  // The words of the parts

  ghost predicate TokensSpell(ts: seq<Token>, ls: seq<Lexeme>) { Spells(Plain(ts), ls) }

  lemma TokensConcat(a: seq<Token>, la: seq<Lexeme>, b: seq<Token>, lb: seq<Lexeme>)
    requires TokensSpell(a, la) && TokensSpell(b, lb)
    ensures TokensSpell(a + b, la + lb)
  {
    hide Ends;
    PlainConcat(a, b);
    SpellsConcat(Plain(a), la, Plain(b), lb);
  }

  lemma TextSpells(s: string, ls: seq<Lexeme>)
    requires Spells(s, ls)
    ensures TokensSpell([Text(s)], ls)
  {
    hide Spells;
    PlainOne(Text(s));
  }

  lemma NoTokens()
    ensures TokensSpell([], [])
  {
    SpellsNothing();
  }

  /** A keyword between spaces. */
  lemma Keyword(word: string)
    requires IsWord(word)
    ensures TokensSpell([Text(" " + word + " ")], [Word(word)])
  {
    hide Spells;
    SpellsWord(word);
    TextSpells(" " + word + " ", [Word(word)]);
  }

  lemma Keywords()
    ensures TokensSpell([Text(" WHERE ")], [Word("WHERE")])
    ensures TokensSpell([Text(" AND ")], [Word("AND")])
    ensures TokensSpell([Text(" OR ")], [Word("OR")])
    ensures TokensSpell([Text(" FROM ")], [Word("FROM")])
    ensures TokensSpell([Text(" LIMIT ")], [Word("LIMIT")])
  {
    hide TokensSpell;
    Keyword("WHERE");
    assert " " + "WHERE" + " " == " WHERE ";
    Keyword("AND");
    assert " " + "AND" + " " == " AND ";
    Keyword("OR");
    assert " " + "OR" + " " == " OR ";
    Keyword("FROM");
    assert " " + "FROM" + " " == " FROM ";
    Keyword("LIMIT");
    assert " " + "LIMIT" + " " == " LIMIT ";
  }

  lemma OrderBySpells()
    ensures TokensSpell([Text(" ORDER BY ")], [Word("ORDER"), Word("BY")])
  {
    hide Spells;
    SpellsWord("ORDER");
    SpellsWord("BY");
    assert " " + "ORDER" == " ORDER" && " " + "BY" + " " == " BY ";
    JoinSpelt(" ORDER", [Word("ORDER")], " BY ", [Word("BY")]);
    assert " ORDER" + " BY " == " ORDER BY ";
    assert [Word("ORDER")] + [Word("BY")] == [Word("ORDER"), Word("BY")];
    TextSpells(" ORDER BY ", [Word("ORDER"), Word("BY")]);
  }

  lemma JoinSpelt(a: string, la: seq<Lexeme>, b: string, lb: seq<Lexeme>)
    requires Spells(a, la) && Spells(b, lb)
    ensures Spells(a + b, la + lb)
  {
    hide Ends;
    SpellsConcat(a, la, b, lb);
  }

  lemma MarkSpells(c: char)
    requires IsMark(c)
    ensures TokensSpell([Text([c])], [Mark(c)])
  {
    hide Spells;
    SpellsMark(c);
    TextSpells([c], [Mark(c)]);
  }

  lemma HoleSpells()
    ensures TokensSpell([Hole], [Mark('?')])
  {
    hide Spells;
    SpellsMark('?');
    PlainOne(Hole);
  }

  lemma NameSpells(quote: Quoter, q: char, name: string)
    requires Delimits(quote, q, name)
    ensures TokensSpell([Text(quote(name))], [Name(name)])
  {
    hide Spells;
    SpellsName(name, q);
    TextSpells(quote(name), [Name(name)]);
  }

  // Conditions

  function AtomLex(a: Atom): seq<Lexeme> { [Name(a.col), Word(OpText(a.op)), Mark('?')] }

  function AndLex(ands: seq<Atom>): seq<Lexeme> {
    if ands == [] then []
    else AtomLex(ands[0]) + if |ands| == 1 then [] else [Word("AND")] + AndLex(ands[1..])
  }

  function GroupLex(ands: seq<Atom>): seq<Lexeme> { [Mark('(')] + AndLex(ands) + [Mark(')')] }

  function OrLex(clause: Clause): seq<Lexeme> {
    if clause == [] then []
    else GroupLex(clause[0]) + if |clause| == 1 then [] else [Word("OR")] + OrLex(clause[1..])
  }

  function ClauseLex(clause: Clause): seq<Lexeme> { [Mark('(')] + OrLex(clause) + [Mark(')')] }

  lemma AtomSpells(a: Atom, quote: Quoter, q: char)
    requires Delimits(quote, q, a.col)
    ensures TokensSpell(AtomTokens(a, quote), AtomLex(a))
  {
    hide Spells;
    var text := quote(a.col) + " " + OpText(a.op) + " ";
    assert IsWord(OpText(a.op));
    SpellsName(a.col, q);
    SpellsWord(OpText(a.op));
    JoinSpelt(quote(a.col), [Name(a.col)], " " + OpText(a.op) + " ", [Word(OpText(a.op))]);
    assert quote(a.col) + (" " + OpText(a.op) + " ") == text;
    TextSpells(text, [Name(a.col)] + [Word(OpText(a.op))]);
    HoleSpells();
    TokensConcat([Text(text)], [Name(a.col)] + [Word(OpText(a.op))], [Hole], [Mark('?')]);
    assert [Text(text)] + [Hole] == AtomTokens(a, quote);
    assert [Name(a.col)] + [Word(OpText(a.op))] + [Mark('?')] == AtomLex(a);
  }

  predicate DelimitsAtoms(quote: Quoter, q: char, ands: seq<Atom>) {
    forall i :: 0 <= i < |ands| ==> Delimits(quote, q, ands[i].col)
  }

  lemma {:induction false} AndSpells(ands: seq<Atom>, quote: Quoter, q: char)
    requires DelimitsAtoms(quote, q, ands)
    ensures TokensSpell(AndTokens(ands, quote), AndLex(ands))
  {
    NoTokens();
    if ands != [] {
      AndSpells(ands[1..], quote, q);
      AtomSpells(ands[0], quote, q);
      Keywords();
      hide TokensSpell, AtomTokens, AtomLex;
      TokensConcat([Text(" AND ")], [Word("AND")], AndTokens(ands[1..], quote), AndLex(ands[1..]));
      TokensConcat(AtomTokens(ands[0], quote), AtomLex(ands[0]),
                   if |ands| == 1 then [] else [Text(" AND ")] + AndTokens(ands[1..], quote),
                   if |ands| == 1 then [] else [Word("AND")] + AndLex(ands[1..]));
    }
  }

  lemma ParensSpell(ts: seq<Token>, ls: seq<Lexeme>)
    requires TokensSpell(ts, ls)
    ensures TokensSpell([Text("(")] + ts + [Text(")")], [Mark('(')] + ls + [Mark(')')])
  {
    hide TokensSpell;
    MarkSpells('(');
    MarkSpells(')');
    assert ['('] == "(" && [')'] == ")";
    TokensConcat([Text("(")], [Mark('(')], ts, ls);
    TokensConcat([Text("(")] + ts, [Mark('(')] + ls, [Text(")")], [Mark(')')]);
  }

  predicate DelimitsClause(quote: Quoter, q: char, clause: Clause) {
    forall i :: 0 <= i < |clause| ==> DelimitsAtoms(quote, q, clause[i])
  }

  lemma {:induction false} OrSpells(clause: Clause, quote: Quoter, q: char)
    requires DelimitsClause(quote, q, clause)
    ensures TokensSpell(OrTokens(clause, quote), OrLex(clause))
  {
    NoTokens();
    if clause != [] {
      OrSpells(clause[1..], quote, q);
      AndSpells(clause[0], quote, q);
      Keywords();
      hide TokensSpell, AndTokens, AndLex;
      ParensSpell(AndTokens(clause[0], quote), AndLex(clause[0]));
      TokensConcat([Text(" OR ")], [Word("OR")], OrTokens(clause[1..], quote), OrLex(clause[1..]));
      TokensConcat([Text("(")] + AndTokens(clause[0], quote) + [Text(")")], GroupLex(clause[0]),
                   if |clause| == 1 then [] else [Text(" OR ")] + OrTokens(clause[1..], quote),
                   if |clause| == 1 then [] else [Word("OR")] + OrLex(clause[1..]));
    }
  }

  // Reading conditions

  function AndExpr(ands: seq<Atom>): Expr
    requires ands != []
  {
    var first := Compare(ands[0].col, OpText(ands[0].op));
    if |ands| == 1 then first else Both(first, AndExpr(ands[1..]))
  }

  /** No disjunct is empty. */
  predicate Full(clause: Clause) {
    clause != [] && forall i :: 0 <= i < |clause| ==> clause[i] != []
  }

  function OrExpr(clause: Clause): Expr
    requires Full(clause)
  {
    if |clause| == 1 then AndExpr(clause[0]) else Either(AndExpr(clause[0]), OrExpr(clause[1..]))
  }

  lemma LexAssoc(a: seq<Lexeme>, b: seq<Lexeme>, c: seq<Lexeme>)
    ensures (a + b) + c == a + (b + c)
  {
  }

  /** A keyword between two parts: reading goes on behind it. */
  lemma Onward(word: Lexeme, more: seq<Lexeme>, rest: seq<Lexeme>)
    ensures Starts([word] + more + rest, word) && ([word] + more + rest)[1..] == more + rest
  {
  }

  lemma {:induction false} AndRead(ands: seq<Atom>, rest: seq<Lexeme>)
    requires ands != [] && !Starts(rest, Word("AND"))
    ensures ReadAnd(AndLex(ands) + rest) == Some((AndExpr(ands), rest))
  {
    var first := Compare(ands[0].col, OpText(ands[0].op));
    if |ands| == 1 {
      assert AndLex(ands) == AtomLex(ands[0]) + [] == AtomLex(ands[0]);
      hide ReadAnd, ReadFactor, AndLex;
      CompareStep(ands[0].col, OpText(ands[0].op), rest);
      AndStep(AndLex(ands) + rest, first, rest);
    } else {
      var more := [Word("AND")] + AndLex(ands[1..]);
      AndRead(ands[1..], rest);
      assert AndLex(ands) == AtomLex(ands[0]) + more;
      assert AndExpr(ands) == Both(first, AndExpr(ands[1..]));
      hide ReadAnd, ReadFactor, AndLex, AndExpr, OpText;
      LexAssoc(AtomLex(ands[0]), more, rest);
      CompareStep(ands[0].col, OpText(ands[0].op), more + rest);
      Onward(Word("AND"), AndLex(ands[1..]), rest);
      AndStep(AndLex(ands) + rest, first, more + rest);
    }
  }

  lemma GroupRead(ands: seq<Atom>, rest: seq<Lexeme>)
    requires ands != []
    ensures ReadFactor(GroupLex(ands) + rest) == Some((AndExpr(ands), rest))
  {
    hide ReadAnd, ReadOr, ReadFactor, AndLex, AndExpr;
    var inner := AndLex(ands) + ([Mark(')')] + rest);
    assert GroupLex(ands) + rest == [Mark('(')] + inner;
    AndRead(ands, [Mark(')')] + rest);
    OrStep(inner, AndExpr(ands), [Mark(')')] + rest);
    ParensStep(GroupLex(ands) + rest, inner, AndExpr(ands), rest);
  }

  lemma {:induction false} OrRead(clause: Clause, rest: seq<Lexeme>)
    requires Full(clause) && !Starts(rest, Word("AND")) && !Starts(rest, Word("OR"))
    ensures ReadOr(OrLex(clause) + rest) == Some((OrExpr(clause), rest))
  {
    var first := AndExpr(clause[0]);
    if |clause| == 1 {
      assert OrLex(clause) == GroupLex(clause[0]) + [] == GroupLex(clause[0]);
      hide ReadAnd, ReadOr, ReadFactor, OrLex, GroupLex, AndExpr;
      GroupRead(clause[0], rest);
      AndStep(OrLex(clause) + rest, first, rest);
      OrStep(OrLex(clause) + rest, first, rest);
    } else {
      var more := [Word("OR")] + OrLex(clause[1..]);
      OrRead(clause[1..], rest);
      assert OrLex(clause) == GroupLex(clause[0]) + more;
      assert OrExpr(clause) == Either(first, OrExpr(clause[1..]));
      hide ReadAnd, ReadOr, ReadFactor, OrLex, GroupLex, AndExpr, OrExpr;
      LexAssoc(GroupLex(clause[0]), more, rest);
      GroupRead(clause[0], more + rest);
      Onward(Word("OR"), OrLex(clause[1..]), rest);
      AndStep(OrLex(clause) + rest, first, more + rest);
      OrStep(OrLex(clause) + rest, first, more + rest);
    }
  }

  lemma ClauseRead(clause: Clause, rest: seq<Lexeme>)
    requires Full(clause)
    ensures ReadFactor(ClauseLex(clause) + rest) == Some((OrExpr(clause), rest))
  {
    hide ReadAnd, ReadOr, ReadFactor, OrLex, OrExpr;
    var inner := OrLex(clause) + ([Mark(')')] + rest);
    assert ClauseLex(clause) + rest == [Mark('(')] + inner;
    OrRead(clause, [Mark(')')] + rest);
    ParensStep(ClauseLex(clause) + rest, inner, OrExpr(clause), rest);
  }

  // What is read means what the clause means

  lemma WordMeans(op: Op, x: int, v: int)
    ensures WordHolds(OpText(op), x, v) <==> OpHolds(op, x, v)
  {
  }

  lemma {:induction false} AndMeans(ands: seq<Atom>, row: Row, args: seq<int>)
    requires ands != [] && |args| == |ands|
    ensures Places(AndExpr(ands)) == |ands| && (Meets(AndExpr(ands), row, args) <==> AndHolds(ands, row, args))
  {
    WordMeans(ands[0].op, row(ands[0].col), args[0]);
    if |ands| > 1 {
      AndMeans(ands[1..], row, args[1..]);
      hide OpText, OpHolds, WordHolds;
      assert args[..1] == [args[0]];
      assert AndHolds(ands, row, args)
          <==> OpHolds(ands[0].op, row(ands[0].col), args[0]) && AndHolds(ands[1..], row, args[1..]) by {
        assert forall i :: 0 < i < |ands| ==> ands[i] == ands[1..][i - 1] && args[i] == args[1..][i - 1];
      }
    }
  }

  lemma {:induction false} OrMeans(clause: Clause, row: Row, args: seq<int>)
    requires Full(clause) && |args| == Holes(clause)
    ensures Places(OrExpr(clause)) == Holes(clause)
    ensures Meets(OrExpr(clause), row, args) <==> ClauseHolds(clause, row, args)
  {
    var n := |clause[0]|;
    AndMeans(clause[0], row, args[..n]);
    hide AndHolds, AndExpr;
    if |clause| > 1 {
      OrMeans(clause[1..], row, args[n..]);
    } else {
      assert args[..n] == args;
    }
  }

  // The order

  function Direction(reverse: bool): string { if reverse then "DESC" else "ASC" }

  function ColsLex(cols: seq<string>, word: string): seq<Lexeme> {
    if cols == [] then []
    else [Name(cols[0]), Word(word)] + if |cols| == 1 then [] else [Mark(',')] + ColsLex(cols[1..], word)
  }

  function OrderLex(cols: seq<string>, word: string): seq<Lexeme> { [Word("ORDER"), Word("BY")] + ColsLex(cols, word) }

  lemma DirectionSpells(reverse: bool)
    ensures TokensSpell([Text(DirText(reverse))], [Word(Direction(reverse))])
  {
    hide Spells;
    SpellsWord(Direction(reverse));
    assert " " + Direction(reverse) == DirText(reverse);
    TextSpells(DirText(reverse), [Word(Direction(reverse))]);
  }

  lemma CommaSpells()
    ensures TokensSpell([Text(", ")], [Mark(',')])
  {
    hide Spells;
    SpellsMark(',');
    SpellsSpace();
    JoinSpelt([','], [Mark(',')], " ", []);
    assert [','] + " " == ", " && [Mark(',')] + [] == [Mark(',')];
    TextSpells(", ", [Mark(',')]);
  }

  lemma ItemSpells(cols: seq<string>, i: nat, reverse: bool, quote: Quoter, q: char)
    requires i < |cols| && Delimits(quote, q, cols[i])
    ensures TokensSpell(OrderItem(cols, i, reverse, quote),
                        (if i != 0 then [Mark(',')] else []) + [Name(cols[i]), Word(Direction(reverse))])
  {
    hide TokensSpell, DirText, Direction;
    NoTokens();
    CommaSpells();
    NameSpells(quote, q, cols[i]);
    DirectionSpells(reverse);
    var name, dir := Text(quote(cols[i])), Text(DirText(reverse));
    TokensConcat([name], [Name(cols[i])], [dir], [Word(Direction(reverse))]);
    assert [name] + [dir] == [name, dir];
    assert [Name(cols[i])] + [Word(Direction(reverse))] == [Name(cols[i]), Word(Direction(reverse))];
    TokensConcat(if i != 0 then [Text(", ")] else [], if i != 0 then [Mark(',')] else [], [name, dir],
                 [Name(cols[i]), Word(Direction(reverse))]);
  }

  lemma {:induction false} ItemsSpell(cols: seq<string>, i: nat, reverse: bool, quote: Quoter, q: char)
    requires i < |cols| && DelimitsAll(quote, q, cols)
    ensures TokensSpell(OrderItems(cols, i, reverse, quote),
                        (if i != 0 then [Mark(',')] else []) + ColsLex(cols[i..], Direction(reverse)))
    decreases |cols| - i
  {
    var word := Direction(reverse);
    var more := if i + 1 < |cols| then [Mark(',')] + ColsLex(cols[i + 1..], word) else [];
    ColsStep(cols, i, word);
    if i + 1 < |cols| {
      ItemsSpell(cols, i + 1, reverse, quote, q);
    } else {
      NoTokens();
    }
    hide *;
    MoreItems(cols, i, reverse, quote, q, more);
  }

  lemma MoreItems(cols: seq<string>, i: nat, reverse: bool, quote: Quoter, q: char, more: seq<Lexeme>)
    requires i < |cols| && DelimitsAll(quote, q, cols) && TokensSpell(OrderItems(cols, i + 1, reverse, quote), more)
    ensures TokensSpell(OrderItems(cols, i, reverse, quote),
                        (if i != 0 then [Mark(',')] else []) + ([Name(cols[i]), Word(Direction(reverse))] + more))
  {
    ItemSpells(cols, i, reverse, quote, q);
    var sep, first := if i != 0 then [Mark(',')] else [], [Name(cols[i]), Word(Direction(reverse))];
    var item, items := OrderItem(cols, i, reverse, quote), OrderItems(cols, i + 1, reverse, quote);
    assert OrderItems(cols, i, reverse, quote) == item + items;
    hide *;
    TokensConcat(item, sep + first, items, more);
    LexAssoc(sep, first, more);
  }

  lemma ColsStep(cols: seq<string>, i: nat, word: string)
    requires i < |cols|
    ensures ColsLex(cols[i..], word)
            == [Name(cols[i]), Word(word)] + if i + 1 < |cols| then [Mark(',')] + ColsLex(cols[i + 1..], word) else []
  {
    assert cols[i..][1..] == cols[i + 1..];
  }

  lemma OrderSpells(cols: seq<string>, reverse: bool, quote: Quoter, q: char)
    requires DelimitsAll(quote, q, cols)
    ensures TokensSpell(OrderTokens(cols, reverse, quote), OrderLex(cols, Direction(reverse)))
  {
    OrderBySpells();
    NoTokens();
    hide TokensSpell, Direction, ColsLex;
    if cols != [] {
      ItemsSpell(cols, 0, reverse, quote, q);
      assert cols[0..] == cols && [] + ColsLex(cols, Direction(reverse)) == ColsLex(cols, Direction(reverse));
    } else {
      assert ColsLex(cols, Direction(reverse)) == [] by { NoColumns(Direction(reverse)); }
    }
    TokensConcat([Text(" ORDER BY ")], [Word("ORDER"), Word("BY")], OrderItems(cols, 0, reverse, quote),
                 ColsLex(cols, Direction(reverse)));
  }

  lemma NoColumns(word: string)
    ensures ColsLex([], word) == []
  {
  }

  function Sorts(cols: seq<string>, word: string): seq<Sort> {
    if cols == [] then [] else [Sort(cols[0], word)] + Sorts(cols[1..], word)
  }

  lemma {:induction false} ColsRead(cols: seq<string>, reverse: bool, rest: seq<Lexeme>)
    requires cols != [] && !Starts(rest, Mark(','))
    ensures ReadSorts(ColsLex(cols, Direction(reverse)) + rest) == Some((Sorts(cols, Direction(reverse)), rest))
  {
    var word := Direction(reverse);
    var more := if |cols| == 1 then [] else [Mark(',')] + ColsLex(cols[1..], word);
    var ls := ColsLex(cols, word) + rest;
    assert ls == [Name(cols[0]), Word(word)] + (more + rest);
    assert ls[2..] == more + rest;
    if |cols| > 1 {
      ColsRead(cols[1..], reverse, rest);
      assert ls[3..] == ColsLex(cols[1..], word) + rest;
    } else {
      assert more + rest == rest && Sorts(cols[1..], word) == [];
      assert Sorts(cols, word) == [Sort(cols[0], word)];
    }
  }

  lemma OrderRead(where: Option<Expr>, cols: seq<string>, reverse: bool, rest: seq<Lexeme>)
    requires cols != [] && !Starts(rest, Mark(','))
    ensures ReadOrder(where, OrderLex(cols, Direction(reverse)) + rest)
            == Some((Clauses(where, Sorts(cols, Direction(reverse))), rest))
  {
    ColsRead(cols, reverse, rest);
    hide ReadSorts, ColsLex, Sorts, Direction;
    var ls := OrderLex(cols, Direction(reverse)) + rest;
    assert ls[1..][0] == ls[1] && ls[2..] == ColsLex(cols, Direction(reverse)) + rest;
  }

  /** What is read orders rows as the options ask. */
  lemma {:induction false} OrderReadMeans(cols: seq<string>, reverse: bool, a: Row, b: Row)
    ensures Precedes(Sorts(cols, Direction(reverse)), a, b) <==> OrderedBefore(cols, reverse, a, b)
  {
    if cols != [] {
      OrderReadMeans(cols[1..], reverse, a, b);
      assert Sorts(cols, Direction(reverse))[1..] == Sorts(cols[1..], Direction(reverse));
    }
  }

  // The conditions of a range

  function BoundLex(b: Idx, mid: Op, last: Op): seq<Lexeme>
    requires |b.vals| <= |b.cols|
  {
    if b.vals == [] then [] else ClauseLex(BoundClause(b, mid, last))
  }

  lemma BoundAtoms(b: Idx, mid: Op, last: Op, quote: Quoter, q: char)
    requires |b.vals| <= |b.cols| && DelimitsAll(quote, q, b.cols)
    ensures DelimitsClause(quote, q, BoundClause(b, mid, last))
    ensures b.vals != [] ==> Full(BoundClause(b, mid, last))
  {
    hide Delimits;
    var n, clause := |b.vals|, BoundClause(b, mid, last);
    RangeClauseAt(b.cols, n, 0, mid, last);
    forall i | 0 <= i < n ensures clause[i] != [] && DelimitsAtoms(quote, q, clause[i]) {
      assert clause[i - 0] == Disjunct(b.cols, n, i, mid, last);
    }
  }

  lemma BoundFull(b: Idx, mid: Op, last: Op)
    requires 0 < |b.vals| <= |b.cols|
    ensures Full(BoundClause(b, mid, last))
  {
    RangeClauseAt(b.cols, |b.vals|, 0, mid, last);
    var clause := BoundClause(b, mid, last);
    forall i | 0 <= i < |clause| ensures clause[i] != [] {
      assert clause[i - 0] == Disjunct(b.cols, |b.vals|, i, mid, last);
    }
  }

  lemma BoundSpells(b: Idx, mid: Op, last: Op, quote: Quoter, q: char)
    requires |b.vals| <= |b.cols| && DelimitsAll(quote, q, b.cols)
    ensures TokensSpell(BoundTokens(b, mid, last, quote), BoundLex(b, mid, last))
  {
    NoTokens();
    if b.vals != [] {
      BoundAtoms(b, mid, last, quote, q);
      hide TokensSpell, BoundClause, OrTokens, OrLex;
      OrSpells(BoundClause(b, mid, last), quote, q);
      ParensSpell(OrTokens(BoundClause(b, mid, last), quote), OrLex(BoundClause(b, mid, last)));
    }
  }

  function BoundExpr(b: Idx, mid: Op, last: Op): Expr
    requires 0 < |b.vals| <= |b.cols|
  {
    BoundFull(b, mid, last);
    OrExpr(BoundClause(b, mid, last))
  }

  lemma BoundRead(b: Idx, mid: Op, last: Op, rest: seq<Lexeme>)
    requires 0 < |b.vals| <= |b.cols|
    ensures ReadFactor(BoundLex(b, mid, last) + rest) == Some((BoundExpr(b, mid, last), rest))
  {
    hide ReadFactor, BoundClause, ClauseLex, OrExpr;
    BoundFull(b, mid, last);
    ClauseRead(BoundClause(b, mid, last), rest);
  }

  function StartLex(o: Opts): seq<Lexeme>
    requires RangeError(o) == None
  {
    (if Start(o).vals != [] || Stop(o).vals != [] then [Word("WHERE")] else []) + BoundLex(Start(o), Gt, StartLast(o))
  }

  function StopLex(o: Opts): seq<Lexeme>
    requires RangeError(o) == None
  {
    (if Start(o).vals != [] && Stop(o).vals != [] then [Word("AND")] else []) + BoundLex(Stop(o), Lt, StopLast(o))
  }

  function WhereLex(o: Opts): seq<Lexeme>
    requires RangeError(o) == None
  {
    StartLex(o) + StopLex(o)
  }

  lemma WhereSpells(o: Opts, quote: Quoter, q: char)
    requires RangeError(o) == None && DelimitsAll(quote, q, Start(o).cols) && DelimitsAll(quote, q, Stop(o).cols)
    ensures TokensSpell(WhereTokens(o, quote), WhereLex(o))
  {
    NoTokens();
    Keywords();
    hide TokensSpell, BoundTokens, BoundLex, DelimitsAll;
    BoundSpells(Start(o), Gt, StartLast(o), quote, q);
    BoundSpells(Stop(o), Lt, StopLast(o), quote, q);
    TokensConcat(WhereToken(o), if Start(o).vals != [] || Stop(o).vals != [] then [Word("WHERE")] else [],
                 BoundTokens(Start(o), Gt, StartLast(o), quote), BoundLex(Start(o), Gt, StartLast(o)));
    TokensConcat(AndToken(o), if Start(o).vals != [] && Stop(o).vals != [] then [Word("AND")] else [],
                 BoundTokens(Stop(o), Lt, StopLast(o), quote), BoundLex(Stop(o), Lt, StopLast(o)));
    TokensConcat(FromTokens(o, quote), StartLex(o), ToTokens(o, quote), StopLex(o));
  }

  function WhereExpr(o: Opts): Option<Expr>
    requires RangeError(o) == None
  {
    if Start(o).vals == [] && Stop(o).vals == [] then None
    else if Stop(o).vals == [] then Some(BoundExpr(Start(o), Gt, StartLast(o)))
    else if Start(o).vals == [] then Some(BoundExpr(Stop(o), Lt, StopLast(o)))
    else Some(Both(BoundExpr(Start(o), Gt, StartLast(o)), BoundExpr(Stop(o), Lt, StopLast(o))))
  }

  /** One bound, and nothing to go on with. */
  lemma OneBoundRead(b: Idx, mid: Op, last: Op, rest: seq<Lexeme>)
    requires 0 < |b.vals| <= |b.cols| && !Starts(rest, Word("AND")) && !Starts(rest, Word("OR"))
    ensures ReadAnd(BoundLex(b, mid, last) + rest) == Some((BoundExpr(b, mid, last), rest))
    ensures ReadOr(BoundLex(b, mid, last) + rest) == Some((BoundExpr(b, mid, last), rest))
  {
    hide ReadFactor, ReadAnd, ReadOr, BoundLex, BoundExpr;
    var ls := BoundLex(b, mid, last) + rest;
    BoundRead(b, mid, last, rest);
    AndStep(ls, BoundExpr(b, mid, last), rest);
    OrStep(ls, BoundExpr(b, mid, last), rest);
  }

  lemma WhereRead(o: Opts, rest: seq<Lexeme>)
    requires RangeError(o) == None && WhereExpr(o).Some?
    requires !Starts(rest, Word("AND")) && !Starts(rest, Word("OR"))
    ensures Starts(WhereLex(o), Word("WHERE"))
    ensures ReadOr(WhereLex(o)[1..] + rest) == Some((WhereExpr(o).value, rest))
  {
    hide ReadFactor, ReadAnd, ReadOr, BoundLex, BoundExpr;
    var start, stop := BoundLex(Start(o), Gt, StartLast(o)), BoundLex(Stop(o), Lt, StopLast(o));
    NoBound(Start(o), Gt, StartLast(o));
    NoBound(Stop(o), Lt, StopLast(o));
    if Stop(o).vals == [] {
      OneBoundRead(Start(o), Gt, StartLast(o), rest);
      assert WhereLex(o)[1..] == start;
    } else if Start(o).vals == [] {
      OneBoundRead(Stop(o), Lt, StopLast(o), rest);
      assert WhereLex(o)[1..] == stop;
    } else {
      var more := [Word("AND")] + (stop + rest);
      assert WhereLex(o)[1..] + rest == start + more && more[1..] == stop + rest;
      OneBoundRead(Stop(o), Lt, StopLast(o), rest);
      BoundRead(Start(o), Gt, StartLast(o), more);
      AndStep(start + more, BoundExpr(Start(o), Gt, StartLast(o)), more);
      OrStep(start + more, WhereExpr(o).value, rest);
    }
  }

  lemma NoBound(b: Idx, mid: Op, last: Op)
    requires |b.vals| <= |b.cols|
    ensures b.vals == [] ==> BoundLex(b, mid, last) == []
  {
  }

  lemma BoundExprMeans(b: Idx, mid: Op, last: Op, row: Row, args: seq<int>)
    requires 0 < |b.vals| <= |b.cols| && |args| == Holes(BoundClause(b, mid, last))
    ensures Places(BoundExpr(b, mid, last)) == Holes(BoundClause(b, mid, last))
    ensures Meets(BoundExpr(b, mid, last), row, args) <==> ClauseHolds(BoundClause(b, mid, last), row, args)
  {
    BoundFull(b, mid, last);
    OrMeans(BoundClause(b, mid, last), row, args);
  }

  /** What is read of the conditions selects the interval. */
  lemma WhereReadMeans(o: Opts, order: seq<Sort>, row: Row)
    requires RangeError(o) == None
    ensures var c := Clauses(WhereExpr(o), order);
            c.Count() == |WhereArgs(o)| && (c.Selects(row, WhereArgs(o)) <==> InInterval(o, row))
  {
    ScanMeaning(o, row);
    NoClause(Start(o), Gt, StartLast(o));
    NoClause(Stop(o), Lt, StopLast(o));
    hide InInterval, BoundClause, BoundExpr, WhereArgs, ClauseHolds;
    var args, n := WhereArgs(o), Holes(BoundClause(Start(o), Gt, StartLast(o)));
    if Start(o).vals != [] { BoundExprMeans(Start(o), Gt, StartLast(o), row, args[..n]); }
    if Stop(o).vals != [] { BoundExprMeans(Stop(o), Lt, StopLast(o), row, args[n..]); }
    assert Stop(o).vals == [] ==> args[..n] == args;
    assert Start(o).vals == [] ==> args[n..] == args;
  }

  lemma NoClause(b: Idx, mid: Op, last: Op)
    requires |b.vals| <= |b.cols|
    ensures b.vals == [] <==> BoundClause(b, mid, last) == []
    ensures b.vals == [] ==> Holes(BoundClause(b, mid, last)) == 0
  {
  }

  // Conditions and order

  /** Words that go on with none of the clauses read before them. */
  predicate After(rest: seq<Lexeme>) {
    && !Starts(rest, Word("WHERE")) && !Starts(rest, Word("AND")) && !Starts(rest, Word("OR"))
    && !Starts(rest, Word("ORDER")) && !Starts(rest, Mark(','))
  }

  function RangeLex(o: Opts): seq<Lexeme>
    requires RangeError(o) == None
  {
    WhereLex(o) + OrderLex(OrderCols(o), Direction(o.reverse))
  }

  lemma RangeSpells(o: Opts, quote: Quoter, q: char)
    requires RangeError(o) == None && DelimitsAll(quote, q, Start(o).cols) && DelimitsAll(quote, q, Stop(o).cols)
    ensures TokensSpell(SelectRange(o, quote), RangeLex(o))
  {
    hide TokensSpell, WhereTokens, WhereLex, OrderTokens, OrderLex, DelimitsAll;
    WhereSpells(o, quote, q);
    OrderSpells(OrderCols(o), o.reverse, quote, q);
    TokensConcat(WhereTokens(o, quote), WhereLex(o), OrderTokens(OrderCols(o), o.reverse, quote),
                 OrderLex(OrderCols(o), Direction(o.reverse)));
  }

  /** Reading the conditions, if there are any, leaves the order to be read. */
  lemma ConditionsRead(ls: seq<Lexeme>, where: Option<Expr>, rest: seq<Lexeme>)
    requires if where == None then ls == rest && !Starts(rest, Word("WHERE"))
             else Starts(ls, Word("WHERE")) && ReadOr(ls[1..]) == Some((where.value, rest))
    ensures ReadClauses(ls) == ReadOrder(where, rest)
  {
    hide ReadOr, ReadOrder;
  }

  lemma RangeRead(o: Opts, rest: seq<Lexeme>)
    requires RangeError(o) == None
    ensures ReadClauses(RangeLex(o) + rest)
            == ReadOrder(WhereExpr(o), OrderLex(OrderCols(o), Direction(o.reverse)) + rest)
  {
    var order := OrderLex(OrderCols(o), Direction(o.reverse));
    var ls := RangeLex(o) + rest;
    NoWhere(o);
    hide WhereLex, ReadOr, WhereExpr, ColsLex, ReadClauses, ReadOrder;
    assert ls == WhereLex(o) + (order + rest);
    if WhereExpr(o) == None {
      assert ls == order + rest;
    } else {
      WhereRead(o, order + rest);
      assert ls[1..] == WhereLex(o)[1..] + (order + rest);
    }
    ConditionsRead(ls, WhereExpr(o), order + rest);
  }

  lemma NoWhere(o: Opts)
    requires RangeError(o) == None
    ensures WhereExpr(o) == None ==> WhereLex(o) == []
  {
    hide ClauseLex;
  }

  function PrefixWhereLex(p: Idx): seq<Lexeme>
    requires |p.vals| <= |p.cols|
  {
    if p.vals == [] then [] else [Word("WHERE")] + AndLex(PrefixAtoms(p))
  }

  function PrefixOrderLex(p: Idx, reverse: bool): seq<Lexeme>
    requires |p.vals| <= |p.cols|
  {
    if |p.cols| == |p.vals| then [] else OrderLex(p.cols[|p.vals|..], Direction(reverse))
  }

  lemma PrefixWhereSpells(p: Idx, quote: Quoter, q: char)
    requires |p.vals| <= |p.cols| && DelimitsAll(quote, q, p.cols)
    ensures TokensSpell(if p.vals == [] then [] else [Text(" WHERE ")] + AndTokens(PrefixAtoms(p), quote),
                        PrefixWhereLex(p))
  {
    var ands := PrefixAtoms(p);
    NoTokens();
    Keywords();
    hide TokensSpell, AndTokens, AndLex, Delimits;
    assert DelimitsAtoms(quote, q, ands);
    AndSpells(ands, quote, q);
    TokensConcat([Text(" WHERE ")], [Word("WHERE")], AndTokens(ands, quote), AndLex(ands));
  }

  lemma PrefixOrderSpells(p: Idx, reverse: bool, quote: Quoter, q: char)
    requires |p.vals| <= |p.cols| && DelimitsAll(quote, q, p.cols)
    ensures TokensSpell(if |p.cols| == |p.vals| then [] else OrderTokens(p.cols[|p.vals|..], reverse, quote),
                        PrefixOrderLex(p, reverse))
  {
    var cols := p.cols[|p.vals|..];
    NoTokens();
    hide TokensSpell, OrderTokens, OrderLex, Delimits;
    assert forall i :: 0 <= i < |cols| ==> cols[i] == p.cols[|p.vals| + i];
    OrderSpells(cols, reverse, quote, q);
  }

  lemma PrefixSpells(p: Idx, reverse: bool, quote: Quoter, q: char)
    requires |p.vals| <= |p.cols| && DelimitsAll(quote, q, p.cols)
    ensures TokensSpell(PrefixTokens(p, reverse, quote), PrefixWhereLex(p) + PrefixOrderLex(p, reverse))
  {
    hide TokensSpell, PrefixAtoms, AndTokens, OrderTokens, PrefixWhereLex, PrefixOrderLex, DelimitsAll;
    PrefixWhereSpells(p, quote, q);
    PrefixOrderSpells(p, reverse, quote, q);
    TokensConcat(if p.vals == [] then [] else [Text(" WHERE ")] + AndTokens(PrefixAtoms(p), quote), PrefixWhereLex(p),
                 if |p.cols| == |p.vals| then [] else OrderTokens(p.cols[|p.vals|..], reverse, quote),
                 PrefixOrderLex(p, reverse));
  }

  function PrefixExpr(p: Idx): Option<Expr>
    requires |p.vals| <= |p.cols|
  {
    if p.vals == [] then None else Some(AndExpr(PrefixAtoms(p)))
  }

  lemma PrefixRead(p: Idx, reverse: bool, rest: seq<Lexeme>)
    requires |p.vals| <= |p.cols| && After(rest)
    ensures ReadClauses(PrefixWhereLex(p) + PrefixOrderLex(p, reverse) + rest)
            == Some((Clauses(PrefixExpr(p), Sorts(p.cols[|p.vals|..], Direction(reverse))), rest))
  {
    var where, order := PrefixWhereLex(p), PrefixOrderLex(p, reverse);
    hide *;
    PrefixOrderRead(p, reverse, rest);
    PrefixOrderAfter(p, reverse, rest);
    PrefixWhereRead(p, order + rest);
    LexAssoc(where, order, rest);
    ConditionsRead(where + order + rest, PrefixExpr(p), order + rest);
  }

  lemma PrefixOrderAfter(p: Idx, reverse: bool, rest: seq<Lexeme>)
    requires |p.vals| <= |p.cols| && After(rest)
    ensures var ls := PrefixOrderLex(p, reverse) + rest;
            !Starts(ls, Word("WHERE")) && !Starts(ls, Word("AND")) && !Starts(ls, Word("OR"))
  {
    hide ColsLex;
  }

  lemma PrefixWhereRead(p: Idx, rest: seq<Lexeme>)
    requires |p.vals| <= |p.cols| && !Starts(rest, Word("AND")) && !Starts(rest, Word("OR"))
    ensures var ls := PrefixWhereLex(p) + rest;
            if PrefixExpr(p) == None then ls == rest
            else Starts(ls, Word("WHERE")) && ReadOr(ls[1..]) == Some((PrefixExpr(p).value, rest))
  {
    hide ReadAnd, ReadOr, AndLex, AndExpr;
    if p.vals != [] {
      var ands := PrefixAtoms(p);
      assert (PrefixWhereLex(p) + rest)[1..] == AndLex(ands) + rest;
      AndRead(ands, rest);
      OrStep(AndLex(ands) + rest, AndExpr(ands), rest);
    }
  }

  lemma PrefixOrderRead(p: Idx, reverse: bool, rest: seq<Lexeme>)
    requires |p.vals| <= |p.cols| && After(rest)
    ensures ReadOrder(PrefixExpr(p), PrefixOrderLex(p, reverse) + rest)
            == Some((Clauses(PrefixExpr(p), Sorts(p.cols[|p.vals|..], Direction(reverse))), rest))
  {
    if |p.vals| < |p.cols| {
      OrderRead(PrefixExpr(p), p.cols[|p.vals|..], reverse, rest);
    } else {
      assert PrefixOrderLex(p, reverse) + rest == rest;
    }
  }

  /** The columns equal the values given. */
  predicate HasPrefix(p: Idx, row: Row)
    requires |p.vals| <= |p.cols|
  {
    forall i :: 0 <= i < |p.vals| ==> row(p.cols[i]) == p.vals[i]
  }

  lemma PrefixReadMeans(p: Idx, order: seq<Sort>, row: Row)
    requires |p.vals| <= |p.cols|
    ensures var c := Clauses(PrefixExpr(p), order);
            c.Count() == |p.vals| && (c.Selects(row, p.vals) <==> HasPrefix(p, row))
  {
    var ands := PrefixAtoms(p);
    if p.vals != [] {
      AndMeans(ands, row, p.vals);
      hide AndExpr;
      assert forall i :: 0 <= i < |ands| ==> ands[i] == Atom(p.cols[i], Eq);
    }
  }

  // What the options ask for

  predicate Wanted(o: Opts, row: Row)
    requires SelectError(o) == None && PrefixFits(o)
  {
    if o.prefix.Some? then HasPrefix(o.prefix.value, row) else HasRange(o) ==> InInterval(o, row)
  }

  /** The columns that rows are to be ordered by; after a prefix those that it leaves open. */
  function WantedOrder(o: Opts): seq<string>
    requires PrefixFits(o)
  {
    if o.prefix.Some? then o.prefix.value.cols[|o.prefix.value.vals|..] else if HasRange(o) then OrderCols(o) else []
  }

  /** The conditions and the order select the rows wanted, and put them in the order wanted. */
  ghost predicate Fulfil(c: Clauses, args: seq<int>, o: Opts)
    requires SelectError(o) == None && PrefixFits(o)
  {
    && c.Count() == |args|
    && (forall row: Row :: c.Selects(row, args) <==> Wanted(o, row))
    && (forall a: Row, b: Row :: Precedes(c.order, a, b) <==> OrderedBefore(WantedOrder(o), o.reverse, a, b))
  }

  /** A range without columns has an ORDER BY without columns, which is no statement. */
  predicate NoColumn(o: Opts) {
    o.prefix == None && HasRange(o) && OrderCols(o) == []
  }

  function SelectLex(o: Opts): seq<Lexeme>
    requires SelectError(o) == None && PrefixFits(o)
  {
    if o.prefix.Some? then PrefixWhereLex(o.prefix.value) + PrefixOrderLex(o.prefix.value, o.reverse)
    else if HasRange(o) then RangeLex(o)
    else []
  }

  /** Every column is quoted so that the quoted name can be told from the text around it. */
  predicate ReadableCols(o: Opts, quote: Quoter, q: char) {
    && DelimitsAll(quote, q, Start(o).cols) && DelimitsAll(quote, q, Stop(o).cols)
    && (o.prefix.Some? ==> DelimitsAll(quote, q, o.prefix.value.cols))
  }

  lemma SelectSpells(o: Opts, quote: Quoter, q: char)
    requires SelectError(o) == None && PrefixFits(o) && ReadableCols(o, quote, q)
    ensures TokensSpell(SelectTokens(o, quote), SelectLex(o))
  {
    NoTokens();
    hide TokensSpell, PrefixTokens, PrefixWhereLex, PrefixOrderLex, SelectRange, RangeLex, DelimitsAll;
    if o.prefix.Some? {
      PrefixSpells(o.prefix.value, o.reverse, quote, q);
    } else if HasRange(o) {
      RangeSpells(o, quote, q);
    }
  }

  function SelectClauses(o: Opts): Clauses
    requires SelectError(o) == None && PrefixFits(o)
  {
    Clauses(if o.prefix.Some? then PrefixExpr(o.prefix.value) else if HasRange(o) then WhereExpr(o) else None,
            Sorts(WantedOrder(o), Direction(o.reverse)))
  }

  lemma SelectRead(o: Opts, rest: seq<Lexeme>)
    requires SelectError(o) == None && PrefixFits(o) && After(rest)
    ensures !NoColumn(o) ==> ReadClauses(SelectLex(o) + rest) == Some((SelectClauses(o), rest))
    ensures NoColumn(o) && (rest == [] || !rest[0].Name?) ==> ReadClauses(SelectLex(o) + rest) == None
  {
    if o.prefix.Some? {
      hide ReadClauses, PrefixWhereLex, PrefixOrderLex, PrefixExpr, Sorts;
      PrefixRead(o.prefix.value, o.reverse, rest);
    } else if HasRange(o) {
      RangeRead(o, rest);
      if OrderCols(o) != [] {
        hide ReadClauses, ReadOrder, RangeLex, OrderLex, WhereExpr, Sorts;
        OrderRead(WhereExpr(o), OrderCols(o), o.reverse, rest);
      } else {
        hide ReadClauses, RangeLex, WhereExpr, Sorts;
        var ls := OrderLex([], Direction(o.reverse)) + rest;
        assert ls[1..][0] == Word("BY") && ls[2..] == rest;
      }
    } else {
      assert SelectLex(o) + rest == rest;
    }
  }

  lemma SelectCount(o: Opts)
    requires SelectError(o) == None && PrefixFits(o)
    ensures SelectClauses(o).Count() == |SelectArgs(o)|
  {
    hide WhereExpr, PrefixExpr, Sorts, InInterval, HasPrefix, WhereArgs;
    var row: Row := _ => 0;
    if o.prefix.Some? {
      PrefixReadMeans(o.prefix.value, SelectClauses(o).order, row);
    } else if HasRange(o) {
      WhereReadMeans(o, SelectClauses(o).order, row);
    }
  }

  lemma SelectMeans(o: Opts)
    requires SelectError(o) == None && PrefixFits(o)
    ensures Fulfil(SelectClauses(o), SelectArgs(o), o)
  {
    var c := SelectClauses(o);
    hide WhereExpr, PrefixExpr, Sorts, OrderedBefore, InInterval, HasPrefix, WhereArgs;
    forall row: Row ensures c.Count() == |SelectArgs(o)| && (c.Selects(row, SelectArgs(o)) <==> Wanted(o, row)) {
      if o.prefix.Some? {
        PrefixReadMeans(o.prefix.value, c.order, row);
      } else if HasRange(o) {
        WhereReadMeans(o, c.order, row);
      }
    }
    SelectCount(o);
    forall a: Row, b: Row ensures Precedes(c.order, a, b) <==> OrderedBefore(WantedOrder(o), o.reverse, a, b) {
      OrderReadMeans(WantedOrder(o), o.reverse, a, b);
    }
  }

  /** The text of a range, wherever it begins: nothing is left over. */
  ghost predicate RangeReads(text: string, args: seq<int>, o: Opts)
    requires SelectError(o) == None && PrefixFits(o)
  {
    var r := ReadClauses(Lex(text));
    r.Some? && r.value.1 == [] && Fulfil(r.value.0, args, o)
  }

  lemma RangeTextReads(o: Opts, quote: Quoter, q: char)
    requires o.prefix == None && HasRange(o) && RangeError(o) == None && OrderCols(o) != [] && ReadableCols(o, quote, q)
    ensures RangeReads(Plain(SelectRange(o, quote)), WhereArgs(o), o)
  {
    RangeIsSelected(o, quote);
    SelectSpells(o, quote, q);
    SelectRead(o, []);
    SelectMeans(o);
    hide *;
    WholeTokens(SelectRange(o, quote), SelectLex(o));
    assert SelectLex(o) + [] == SelectLex(o);
    RangeAssemble(Plain(SelectRange(o, quote)), WhereArgs(o), o, SelectClauses(o));
  }

  lemma RangeIsSelected(o: Opts, quote: Quoter)
    requires o.prefix == None && HasRange(o) && RangeError(o) == None
    ensures SelectTokens(o, quote) == SelectRange(o, quote) && SelectArgs(o) == WhereArgs(o)
  {
    hide SelectRange, WhereArgs;
  }

  lemma RangeAssemble(text: string, args: seq<int>, o: Opts, c: Clauses)
    requires SelectError(o) == None && PrefixFits(o) && ReadClauses(Lex(text)) == Some((c, [])) && Fulfil(c, args, o)
    ensures RangeReads(text, args, o)
  {
    hide Fulfil, ReadClauses, Lex;
  }

  lemma WholeTokens(ts: seq<Token>, ls: seq<Lexeme>)
    requires TokensSpell(ts, ls)
    ensures Lex(Plain(ts)) == ls
  {
    hide Lex, Plain, Ends;
    WholeText(Plain(ts), ls);
  }

  lemma WholeText(text: string, ls: seq<Lexeme>)
    requires Ends(text, ls)
    ensures Lex(text) == ls
  {
    assert text + "" == text && Loose("");
  }

  // The limit and the lock

  /** The digits written are those of the number. */
  lemma {:induction false} ItoaReads(n: nat)
    ensures IsNumber(Itoa(n)) && Decimal(Itoa(n)) == n
  {
    if n < 10 {
      assert Itoa(n)[..0] == "";
    } else {
      ItoaReads(n / 10);
      assert Itoa(n)[..|Itoa(n)| - 1] == Itoa(n / 10);
    }
  }

  function LimitLex(limit: int): seq<Lexeme> {
    if limit > 0 then [Word("LIMIT"), Word(Itoa(limit))] else []
  }

  lemma LimitSpells(limit: int)
    ensures TokensSpell(LimitTokens(limit), LimitLex(limit))
  {
    NoTokens();
    if limit > 0 {
      assert IsWord(Itoa(limit));
      hide TokensSpell, Itoa;
      LimitText(Itoa(limit));
    }
  }

  lemma LimitText(digits: string)
    requires IsWord(digits)
    ensures TokensSpell([Text(" LIMIT "), Text(digits)], [Word("LIMIT"), Word(digits)])
  {
    hide Spells, IsWord, Plain;
    LimitWord();
    SpellsWord(digits);
    JoinSpelt(" LIMIT", [Word("LIMIT")], " " + digits, [Word(digits)]);
    Assoc(" LIMIT", " ", digits);
    PlainPair(" LIMIT ", digits);
    assert [Word("LIMIT")] + [Word(digits)] == [Word("LIMIT"), Word(digits)];
  }

  lemma LimitWord()
    ensures Spells(" LIMIT", [Word("LIMIT")]) && " LIMIT" + " " == " LIMIT "
  {
    hide Spells;
    SpellsWord("LIMIT");
    assert " " + "LIMIT" == " LIMIT";
  }

  lemma PlainPair(a: string, b: string)
    ensures Plain([Text(a), Text(b)]) == a + b
  {
    PlainOne(Text(b));
    assert [Text(a), Text(b)][1..] == [Text(b)];
  }

  lemma LimitRead(limit: int, rest: seq<Lexeme>)
    requires !Starts(rest, Word("LIMIT"))
    ensures ReadLimit(LimitLex(limit) + rest) == (if limit > 0 then Some(limit) else None, rest)
  {
    hide Itoa, Decimal, IsNumber;
    if limit > 0 {
      ItoaReads(limit);
      assert (LimitLex(limit) + rest)[2..] == rest;
    } else {
      assert LimitLex(limit) + rest == rest;
    }
  }

  function LockWords(s: string): seq<Lexeme> {
    if s == " FOR SHARE" then [Word("FOR"), Word("SHARE")]
    else if s == " FOR UPDATE" then [Word("FOR"), Word("UPDATE")]
    else if s == " LOCK IN SHARE MODE" then [Word("LOCK"), Word("IN"), Word("SHARE"), Word("MODE")]
    else []
  }

  lemma TwoWords(a: string, b: string)
    requires IsWord(a) && IsWord(b)
    ensures Spells(" " + a + " " + b, [Word(a), Word(b)])
  {
    hide Spells;
    SpellsWord(a);
    SpellsWord(b);
    JoinSpelt(" " + a, [Word(a)], " " + b, [Word(b)]);
    assert (" " + a) + (" " + b) == " " + a + " " + b && [Word(a)] + [Word(b)] == [Word(a), Word(b)];
  }

  lemma ForShare()
    ensures Spells(" FOR SHARE", [Word("FOR"), Word("SHARE")])
  {
    hide Spells;
    TwoWords("FOR", "SHARE");
    assert " " + "FOR" + " " + "SHARE" == " FOR SHARE";
  }

  lemma ForUpdate()
    ensures Spells(" FOR UPDATE", [Word("FOR"), Word("UPDATE")])
  {
    hide Spells;
    TwoWords("FOR", "UPDATE");
    assert " " + "FOR" + " " + "UPDATE" == " FOR UPDATE";
  }

  lemma LockInShareMode()
    ensures Spells(" LOCK IN SHARE MODE", [Word("LOCK"), Word("IN"), Word("SHARE"), Word("MODE")])
  {
    hide Spells;
    TwoWords("LOCK", "IN");
    TwoWords("SHARE", "MODE");
    assert " " + "LOCK" + " " + "IN" == " LOCK IN" && " " + "SHARE" + " " + "MODE" == " SHARE MODE";
    JoinSpelt(" LOCK IN", [Word("LOCK"), Word("IN")], " SHARE MODE", [Word("SHARE"), Word("MODE")]);
    assert " LOCK IN" + " SHARE MODE" == " LOCK IN SHARE MODE";
    assert [Word("LOCK"), Word("IN")] + [Word("SHARE"), Word("MODE")]
        == [Word("LOCK"), Word("IN"), Word("SHARE"), Word("MODE")];
  }

  lemma LockSpells(s: string)
    requires IsLockText(s)
    ensures TokensSpell([Text(s)], LockWords(s))
  {
    hide Spells;
    SpellsNothing();
    ForShare();
    ForUpdate();
    LockInShareMode();
    TextSpells(s, LockWords(s));
  }

  // The whole statement

  predicate Readable(name: string, o: Opts, adap: Adapter, q: char) {
    && Delimits(adap.quote, q, "data") && Delimits(adap.quote, q, name) && ReadableCols(o, adap.quote, q)
    && IsLockText(adap.lockText(o.lock))
  }

  function LockLex(o: Opts, adap: Adapter): seq<Lexeme> { LockWords(adap.lockText(o.lock)) + [Mark(';')] }

  function EndLex(o: Opts, adap: Adapter): seq<Lexeme> { LimitLex(o.limit) + LockLex(o, adap) }

  lemma EndSpells(o: Opts, adap: Adapter)
    requires IsLockText(adap.lockText(o.lock))
    ensures TokensSpell(EndTokens(o, adap), EndLex(o, adap))
  {
    hide TokensSpell, LockWords, IsLockText, LimitTokens, LimitLex;
    LimitSpells(o.limit);
    LockSpells(adap.lockText(o.lock));
    MarkSpells(';');
    assert [';'] == ";";
    TokensConcat([Text(adap.lockText(o.lock))], LockWords(adap.lockText(o.lock)), [Text(";")], [Mark(';')]);
    TokensConcat(LimitTokens(o.limit), LimitLex(o.limit), [Text(adap.lockText(o.lock))] + [Text(";")], LockLex(o, adap));
  }

  function HeadLex(name: string): seq<Lexeme> { [Word("SELECT"), Name("data"), Word("FROM"), Name(name)] }

  lemma TableSpells(name: string, adap: Adapter, q: char)
    requires Delimits(adap.quote, q, "data") && Delimits(adap.quote, q, name)
    ensures TokensSpell([Text(adap.quote("data")), Text(" FROM "), Text(adap.quote(name))],
                        [Name("data"), Word("FROM"), Name(name)])
  {
    hide TokensSpell, Delimits;
    var data, from, table := Text(adap.quote("data")), Text(" FROM "), Text(adap.quote(name));
    NameSpells(adap.quote, q, "data");
    NameSpells(adap.quote, q, name);
    Keywords();
    TokensConcat([data], [Name("data")], [from], [Word("FROM")]);
    TokensConcat([data] + [from], [Name("data")] + [Word("FROM")], [table], [Name(name)]);
    assert [data] + [from] + [table] == [data, from, table];
    assert [Name("data")] + [Word("FROM")] + [Name(name)] == [Name("data"), Word("FROM"), Name(name)];
  }

  lemma SelectWord()
    ensures Ends("SELECT ", [Word("SELECT")])
  {
    EndsWord("SELECT");
    SpellsSpace();
    hide Ends;
    SpellsConcat("SELECT", [Word("SELECT")], " ", []);
    assert "SELECT" + " " == "SELECT " && [Word("SELECT")] + [] == [Word("SELECT")];
  }

  lemma HeadEnds(name: string, adap: Adapter, q: char)
    requires Delimits(adap.quote, q, "data") && Delimits(adap.quote, q, name)
    ensures Ends(Plain(HeadTokens(name, adap)), HeadLex(name))
  {
    hide Ends, Delimits, Plain;
    var rest := [Text(adap.quote("data")), Text(" FROM "), Text(adap.quote(name))];
    TableSpells(name, adap, q);
    SelectWord();
    SpellsConcat("SELECT ", [Word("SELECT")], Plain(rest), [Name("data"), Word("FROM"), Name(name)]);
    PlainOne(Text("SELECT "));
    PlainConcat([Text("SELECT ")], rest);
    assert [Text("SELECT ")] + rest == HeadTokens(name, adap);
    assert [Word("SELECT")] + [Name("data"), Word("FROM"), Name(name)] == HeadLex(name);
  }

  /** What comes behind the conditions and the order. */
  function EndTokens(o: Opts, adap: Adapter): seq<Token> {
    LimitTokens(o.limit) + ([Text(adap.lockText(o.lock))] + [Text(";")])
  }

  lemma ScanTokensSplit(name: string, o: Opts, adap: Adapter)
    requires ScanErrorOf(o) == None && PrefixFits(o)
    ensures ScanTokens(name, o, adap) == HeadTokens(name, adap) + (SelectTokens(o, adap.quote) + EndTokens(o, adap))
  {
    hide HeadTokens, SelectTokens, LimitTokens;
  }

  lemma ScanLex(name: string, o: Opts, adap: Adapter, q: char)
    requires ScanErrorOf(o) == None && PrefixFits(o) && Readable(name, o, adap, q)
    ensures Lex(Plain(ScanTokens(name, o, adap))) == HeadLex(name) + (SelectLex(o) + EndLex(o, adap))
  {
    HeadEnds(name, adap, q);
    SelectSpells(o, adap.quote, q);
    EndSpells(o, adap);
    ScanTokensSplit(name, o, adap);
    hide Ends, SelectTokens, SelectLex, EndTokens, EndLex, HeadTokens, HeadLex, ScanTokens, Plain, Readable;
    var head, select, end := HeadTokens(name, adap), SelectTokens(o, adap.quote), EndTokens(o, adap);
    TokensConcat(select, SelectLex(o), end, EndLex(o, adap));
    SpellsConcat(Plain(head), HeadLex(name), Plain(select + end), SelectLex(o) + EndLex(o, adap));
    PlainConcat(head, select + end);
    WholeText(Plain(ScanTokens(name, o, adap)), HeadLex(name) + (SelectLex(o) + EndLex(o, adap)));
  }

  /** The statement asks for the data of the rows of the table that the options want, in the order and number that
      they want, and locks them as the adapter does. */
  ghost predicate ReadsAs(text: string, args: seq<int>, name: string, o: Opts, adap: Adapter)
    requires SelectError(o) == None && PrefixFits(o)
  {
    var r := ReadQuery(text);
    && r.Some? && r.value.column == "data" && r.value.table == name
    && Fulfil(r.value.clauses, args, o)
    && r.value.limit == (if o.limit > 0 then Some(o.limit) else None)
    && r.value.rest == LockWords(adap.lockText(o.lock)) + [Mark(';')]
  }

  /** Every statement of a scan is read as what the options ask for, but for one without columns to order by, which
      cannot be read. */
  lemma StatementReads(name: string, o: Opts, adap: Adapter, q: char)
    requires ScanErrorOf(o) == None && PrefixFits(o) && Readable(name, o, adap, q)
    ensures ReadQuery(Plain(ScanTokens(name, o, adap))).Some? <==> !NoColumn(o)
    ensures !NoColumn(o) ==> ReadsAs(Plain(ScanTokens(name, o, adap)), SelectArgs(o), name, o, adap)
  {
    var text, ls := Plain(ScanTokens(name, o, adap)), SelectLex(o) + EndLex(o, adap);
    hide *;
    ScanLex(name, o, adap, q);
    EndRead(o, adap);
    SelectRead(o, EndLex(o, adap));
    SelectMeans(o);
    HeadIs(name);
    QueryStep(text, "data", name, ls);
    if !NoColumn(o) {
      var limit := if o.limit > 0 then Some(o.limit) else None;
      Assemble(text, SelectArgs(o), name, o, adap, Query("data", name, SelectClauses(o), limit, LockLex(o, adap)));
    }
  }

  lemma HeadIs(name: string)
    ensures HeadLex(name) == [Word("SELECT"), Name("data"), Word("FROM"), Name(name)]
  {
  }

  lemma Assemble(text: string, args: seq<int>, name: string, o: Opts, adap: Adapter, query: Query)
    requires SelectError(o) == None && PrefixFits(o) && ReadQuery(text) == Some(query)
    requires query.column == "data" && query.table == name && Fulfil(query.clauses, args, o)
    requires query.limit == (if o.limit > 0 then Some(o.limit) else None) && query.rest == LockLex(o, adap)
    ensures ReadsAs(text, args, name, o, adap)
  {
    hide Fulfil, ReadQuery, LockWords;
  }

  lemma EndRead(o: Opts, adap: Adapter)
    ensures After(EndLex(o, adap)) && EndLex(o, adap) != [] && !EndLex(o, adap)[0].Name?
    ensures ReadLimit(EndLex(o, adap)) == (if o.limit > 0 then Some(o.limit) else None, LockLex(o, adap))
  {
    LimitRead(o.limit, LockLex(o, adap));
  }
}
