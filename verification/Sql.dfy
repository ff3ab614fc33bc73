/** How a statement is read: its words, its conditions and its order. Nothing here knows how statements are built. */
module Sql {
  import opened Prelude

  // Words

  /** A quoted name, a single sign, or any other run of characters. */
  datatype Lexeme = Word(s: string) | Name(s: string) | Mark(c: char)

  predicate IsQuote(c: char) { c == '"' || c == '`' }

  predicate IsMark(c: char) { c == '(' || c == ')' || c == ',' || c == ';' || c == '?' }

  predicate InWord(c: char) { c != ' ' && !IsQuote(c) && !IsMark(c) }

  /** The length of the word at the beginning. */
  function WordLength(text: string): (n: nat)
    ensures n <= |text|
  {
    if text == "" || !InWord(text[0]) then 0 else 1 + WordLength(text[1..])
  }

  /** The characters before the closing quote. */
  function NameLength(text: string, quote: char): (n: nat)
    ensures n <= |text|
  {
    if text == "" || text[0] == quote then 0 else 1 + NameLength(text[1..], quote)
  }

  function Lex(text: string): seq<Lexeme> {
    if text == "" then []
    else if text[0] == ' ' then Lex(text[1..])
    else if IsMark(text[0]) then [Mark(text[0])] + Lex(text[1..])
    else if IsQuote(text[0]) then
      var n := NameLength(text[1..], text[0]);
      [Name(text[1..n + 1])] + if n + 2 <= |text| then Lex(text[n + 2..]) else []
    else
      var n := WordLength(text);
      [Word(text[..n])] + Lex(text[n..])
  }

  // Conditions

  /** AND binds tighter than OR. The k-th question mark stands for the k-th argument. */
  datatype Expr = Compare(col: string, word: string) | Both(left: Expr, right: Expr) | Either(left: Expr, right: Expr)

  predicate Starts(ls: seq<Lexeme>, l: Lexeme) { ls != [] && ls[0] == l }

  function ReadOr(ls: seq<Lexeme>): (r: Option<(Expr, seq<Lexeme>)>)
    ensures r.Some? ==> |r.value.1| < |ls|
    decreases |ls|, 2
  {
    match ReadAnd(ls)
    case None => None
    case Some((e, rest)) =>
      if !Starts(rest, Word("OR")) then Some((e, rest))
      else
        match ReadOr(rest[1..])
        case None => None
        case Some((f, more)) => Some((Either(e, f), more))
  }

  function ReadAnd(ls: seq<Lexeme>): (r: Option<(Expr, seq<Lexeme>)>)
    ensures r.Some? ==> |r.value.1| < |ls|
    decreases |ls|, 1
  {
    match ReadFactor(ls)
    case None => None
    case Some((e, rest)) =>
      if !Starts(rest, Word("AND")) then Some((e, rest))
      else
        match ReadAnd(rest[1..])
        case None => None
        case Some((f, more)) => Some((Both(e, f), more))
  }

  /** A comparison of a column with an argument, or a condition in parentheses. */
  function ReadFactor(ls: seq<Lexeme>): (r: Option<(Expr, seq<Lexeme>)>)
    ensures r.Some? ==> |r.value.1| < |ls|
    decreases |ls|, 0
  {
    if Starts(ls, Mark('(')) then
      match ReadOr(ls[1..])
      case None => None
      case Some((e, rest)) => if Starts(rest, Mark(')')) then Some((e, rest[1..])) else None
    else if |ls| >= 3 && ls[0].Name? && ls[1].Word? && ls[2] == Mark('?') then
      Some((Compare(ls[0].s, ls[1].s), ls[3..]))
    else None
  }

  // One step of reading each

  lemma OrStep(ls: seq<Lexeme>, e: Expr, rest: seq<Lexeme>)
    requires ReadAnd(ls) == Some((e, rest))
    ensures !Starts(rest, Word("OR")) ==> ReadOr(ls) == Some((e, rest))
    ensures Starts(rest, Word("OR")) && ReadOr(rest[1..]).Some? ==>
              ReadOr(ls) == Some((Either(e, ReadOr(rest[1..]).value.0), ReadOr(rest[1..]).value.1))
  {
    hide ReadAnd;
  }

  lemma AndStep(ls: seq<Lexeme>, e: Expr, rest: seq<Lexeme>)
    requires ReadFactor(ls) == Some((e, rest))
    ensures !Starts(rest, Word("AND")) ==> ReadAnd(ls) == Some((e, rest))
    ensures Starts(rest, Word("AND")) && ReadAnd(rest[1..]).Some? ==>
              ReadAnd(ls) == Some((Both(e, ReadAnd(rest[1..]).value.0), ReadAnd(rest[1..]).value.1))
  {
    hide ReadFactor;
  }

  lemma ParensStep(ls: seq<Lexeme>, inner: seq<Lexeme>, e: Expr, rest: seq<Lexeme>)
    requires ls == [Mark('(')] + inner && ReadOr(inner) == Some((e, [Mark(')')] + rest))
    ensures ReadFactor(ls) == Some((e, rest))
  {
    hide ReadOr;
    assert ls[0] == Mark('(') && ls[1..] == inner && ([Mark(')')] + rest)[1..] == rest;
  }

  lemma CompareStep(col: string, word: string, rest: seq<Lexeme>)
    ensures ReadFactor([Name(col), Word(word), Mark('?')] + rest) == Some((Compare(col, word), rest))
  {
    assert ([Name(col), Word(word), Mark('?')] + rest)[3..] == rest;
  }

  /** The comparison that a word stands for. */
  predicate WordHolds(word: string, x: int, v: int) {
    || (word == "=" && x == v)
    || (word == "<" && x < v)
    || (word == ">" && x > v)
    || (word == "<=" && x <= v)
    || (word == ">=" && x >= v)
  }

  /** The number of question marks. */
  function Places(e: Expr): nat {
    match e
    case Compare(_, _) => 1
    case Both(l, r) => Places(l) + Places(r)
    case Either(l, r) => Places(l) + Places(r)
  }

  predicate Meets(e: Expr, row: string -> int, args: seq<int>)
    requires |args| == Places(e)
  {
    match e
    case Compare(col, word) => WordHolds(word, row(col), args[0])
    case Both(l, r) => Meets(l, row, args[..Places(l)]) && Meets(r, row, args[Places(l)..])
    case Either(l, r) => Meets(l, row, args[..Places(l)]) || Meets(r, row, args[Places(l)..])
  }

  // The order

  datatype Sort = Sort(col: string, word: string)

  /** Columns, each with its direction, separated by commas. */
  function ReadSorts(ls: seq<Lexeme>): (r: Option<(seq<Sort>, seq<Lexeme>)>) {
    if |ls| < 2 || !ls[0].Name? || (ls[1] != Word("ASC") && ls[1] != Word("DESC")) then None
    else
      var first := Sort(ls[0].s, ls[1].s);
      if !Starts(ls[2..], Mark(',')) then Some(([first], ls[2..]))
      else
        match ReadSorts(ls[3..])
        case None => None
        case Some((sorts, rest)) => Some(([first] + sorts, rest))
  }

  /** One row comes before another: by the first column in which they differ, in the direction of that column. */
  predicate Precedes(sorts: seq<Sort>, a: string -> int, b: string -> int) {
    sorts != []
    && var (x, y) := (a(sorts[0].col), b(sorts[0].col));
       || (sorts[0].word == "ASC" && x < y)
       || (sorts[0].word == "DESC" && x > y)
       || (x == y && Precedes(sorts[1..], a, b))
  }

  // Numbers

  predicate IsNumber(s: string) {
    s != "" && forall i :: 0 <= i < |s| ==> '0' <= s[i] <= '9'
  }

  /** The value of decimal digits. */
  function Decimal(s: string): nat
    requires forall i :: 0 <= i < |s| ==> '0' <= s[i] <= '9'
  {
    if s == "" then 0 else 10 * Decimal(s[..|s| - 1]) + (s[|s| - 1] - '0') as nat
  }

  // Statements

  datatype Clauses = Clauses(where: Option<Expr>, order: seq<Sort>) {
    function Count(): nat {
      match where case None => 0 case Some(e) => Places(e)
    }

    predicate Selects(row: string -> int, args: seq<int>)
      requires |args| == Count()
    {
      match where case None => true case Some(e) => Meets(e, row, args)
    }
  }

  datatype Query = Query(column: string, table: string, clauses: Clauses, limit: Option<nat>, rest: seq<Lexeme>)

  /** The conditions and the order, if there are any. */
  function ReadClauses(ls: seq<Lexeme>): Option<(Clauses, seq<Lexeme>)> {
    if Starts(ls, Word("WHERE")) then
      match ReadOr(ls[1..])
      case None => None
      case Some((e, rest)) => ReadOrder(Some(e), rest)
    else ReadOrder(None, ls)
  }

  function ReadOrder(where: Option<Expr>, ls: seq<Lexeme>): Option<(Clauses, seq<Lexeme>)> {
    if Starts(ls, Word("ORDER")) && Starts(ls[1..], Word("BY")) then
      match ReadSorts(ls[2..])
      case None => None
      case Some((sorts, rest)) => Some((Clauses(where, sorts), rest))
    else Some((Clauses(where, []), ls))
  }

  /** The greatest number of rows, if there is one. */
  function ReadLimit(ls: seq<Lexeme>): (Option<nat>, seq<Lexeme>) {
    if Starts(ls, Word("LIMIT")) && |ls| > 1 && ls[1].Word? && IsNumber(ls[1].s) then (Some(Decimal(ls[1].s)), ls[2..])
    else (None, ls)
  }

  /** A query for one column of one table. What follows the limit is left as it is. */
  function ReadQuery(text: string): Option<Query> {
    var ls := Lex(text);
    if |ls| >= 4 && ls[0] == Word("SELECT") && ls[1].Name? && ls[2] == Word("FROM") && ls[3].Name? then
      match ReadClauses(ls[4..])
      case None => None
      case Some((clauses, more)) =>
        var (limit, rest) := ReadLimit(more);
        Some(Query(ls[1].s, ls[3].s, clauses, limit, rest))
    else None
  }

  lemma QueryStep(text: string, column: string, table: string, ls: seq<Lexeme>)
    requires Lex(text) == [Word("SELECT"), Name(column), Word("FROM"), Name(table)] + ls
    ensures ReadClauses(ls) == None ==> ReadQuery(text) == None
    ensures ReadClauses(ls).Some? ==>
              var (clauses, more) := ReadClauses(ls).value;
              ReadQuery(text) == Some(Query(column, table, clauses, ReadLimit(more).0, ReadLimit(more).1))
  {
    hide Lex, ReadClauses, ReadLimit;
    assert ([Word("SELECT"), Name(column), Word("FROM"), Name(table)] + ls)[4..] == ls;
  }

  // What texts spell

  /** A text that cannot go on with a word begun before it. */
  predicate Loose(text: string) { text == "" || !InWord(text[0]) }

  /** A text that spells the same words wherever it stands, unless a word goes on behind it. */
  ghost predicate Spells(text: string, ls: seq<Lexeme>) {
    Loose(text) && Ends(text, ls)
  }

  ghost predicate Ends(text: string, ls: seq<Lexeme>) {
    forall rest :: Loose(rest) ==> Lex(text + rest) == ls + Lex(rest)
  }

  lemma SpellsNothing()
    ensures Spells("", [])
  {
    forall rest ensures Lex("" + rest) == [] + Lex(rest) {
      assert "" + rest == rest;
    }
  }

  lemma SpellsConcat(a: string, la: seq<Lexeme>, b: string, lb: seq<Lexeme>)
    requires Ends(a, la) && Spells(b, lb)
    ensures Ends(a + b, la + lb) && (Loose(a) ==> Spells(a + b, la + lb))
  {
    hide Lex;
    forall rest | Loose(rest) ensures Lex((a + b) + rest) == (la + lb) + Lex(rest) {
      assert (a + b) + rest == a + (b + rest);
      assert Loose(b + rest);
    }
  }

  lemma SpellsSpace()
    ensures Spells(" ", [])
  {
    forall rest ensures Lex(" " + rest) == [] + Lex(rest) {
      assert (" " + rest)[1..] == rest;
    }
  }

  lemma SpellsMark(c: char)
    requires IsMark(c)
    ensures Spells([c], [Mark(c)])
  {
    forall rest ensures Lex([c] + rest) == [Mark(c)] + Lex(rest) {
      assert ([c] + rest)[1..] == rest;
    }
  }

  lemma SpellsName(name: string, quote: char)
    requires IsQuote(quote) && quote !in name
    ensures Spells([quote] + name + [quote], [Name(name)])
  {
    forall rest ensures Lex([quote] + name + [quote] + rest) == [Name(name)] + Lex(rest) {
      var text, n := [quote] + name + [quote] + rest, |name|;
      assert text[1..] == name + ([quote] + rest);
      NameEnds(name, quote, rest);
      assert text[1..n + 1] == name && text[n + 2..] == rest;
    }
  }

  lemma {:induction false} NameEnds(name: string, quote: char, rest: string)
    requires quote !in name
    ensures NameLength(name + ([quote] + rest), quote) == |name|
  {
    if name == "" {
      assert name + ([quote] + rest) == [quote] + rest;
    } else {
      assert name[0] in name;
      assert (name + ([quote] + rest))[1..] == name[1..] + ([quote] + rest);
      NameEnds(name[1..], quote, rest);
    }
  }

  predicate IsWord(word: string) {
    word != "" && forall i :: 0 <= i < |word| ==> InWord(word[i])
  }

  lemma EndsWord(word: string)
    requires IsWord(word)
    ensures Ends(word, [Word(word)])
  {
    forall rest | Loose(rest) ensures Lex(word + rest) == [Word(word)] + Lex(rest) {
      var text := word + rest;
      WordEnds(word, rest);
      assert text[..|word|] == word && text[|word|..] == rest;
      assert text[0] == word[0];
    }
  }

  lemma {:induction false} WordEnds(word: string, rest: string)
    requires Loose(rest) && forall i :: 0 <= i < |word| ==> InWord(word[i])
    ensures WordLength(word + rest) == |word|
  {
    if word == "" {
      assert word + rest == rest;
    } else {
      assert (word + rest)[1..] == word[1..] + rest;
      WordEnds(word[1..], rest);
    }
  }

  /** A word behind a space, and perhaps before one. */
  lemma SpellsWord(word: string)
    requires IsWord(word)
    ensures Spells(" " + word, [Word(word)]) && Spells(" " + word + " ", [Word(word)])
  {
    SpellsSpace();
    EndsWord(word);
    hide Ends, Lex;
    SpaceBefore(word, [Word(word)]);
    SpellsConcat(" " + word, [Word(word)], " ", []);
    assert [Word(word)] + [] == [Word(word)];
  }

  lemma SpaceBefore(text: string, ls: seq<Lexeme>)
    requires Ends(text, ls)
    ensures Spells(" " + text, ls)
  {
    forall rest | Loose(rest) ensures Lex((" " + text) + rest) == ls + Lex(rest) {
      assert (" " + text) + rest == " " + (text + rest);
      assert (" " + (text + rest))[1..] == text + rest;
    }
  }
}
