/** The statement of a scan (`buildScan` in be/schema/db/db.go): what it consists of, and what it means. */
module ScanText {
  import opened Prelude
  import opened ScanRange

  datatype Idx = Idx(cols: seq<string>, vals: seq<int>)

  datatype Lock = LockNone | LockRead | LockWrite

  datatype Opts = Opts(
    prefix: Option<Idx>,
    startInc: Option<Idx>, startEx: Option<Idx>,
    stopInc: Option<Idx>, stopEx: Option<Idx>,
    lock: Lock, reverse: bool, limit: int)

  /** The parts of an adapter that a statement needs. */
  datatype Adapter = Adapter(quote: Quoter, lockText: Lock -> string)

  function Itoa(n: nat): (s: string)
    ensures |s| > 0 && forall i :: 0 <= i < |s| ==> '0' <= s[i] <= '9'
  {
    if n < 10 then ['0' + n as char] else Itoa(n / 10) + ['0' + (n % 10) as char]
  }

  // The bounds of a range

  const NO_IDX := Idx([], [])

  function Start(o: Opts): Idx {
    if o.startInc.Some? then o.startInc.value else if o.startEx.Some? then o.startEx.value else NO_IDX
  }

  function Stop(o: Opts): Idx {
    if o.stopInc.Some? then o.stopInc.value else if o.stopEx.Some? then o.stopEx.value else NO_IDX
  }

  function StartLast(o: Opts): Op { if o.startInc.Some? then Ge else Gt }

  function StopLast(o: Opts): Op { if o.stopInc.Some? then Le else Lt }

  predicate HasRange(o: Opts) {
    o.startInc.Some? || o.startEx.Some? || o.stopInc.Some? || o.stopEx.Some?
  }

  function RangeError(o: Opts): Option<ScanError> {
    if o.startInc.Some? && o.startEx.Some? then Some(TwoStarts)
    else if o.stopInc.Some? && o.stopEx.Some? then Some(TwoStops)
    else if |Start(o).vals| > |Start(o).cols| then Some(MoreValsThanCols)
    else if |Stop(o).vals| > |Stop(o).cols| then Some(MoreValsThanCols)
    else None
  }

  /** At most one start and one stop. */
  predicate OneEach(o: Opts) {
    (o.startInc == None || o.startEx == None) && (o.stopInc == None || o.stopEx == None)
  }

  /** Each bound's clause; an index without values gives none. */
  function BoundClause(b: Idx, mid: Op, last: Op): Clause
    requires |b.vals| <= |b.cols|
  {
    RangeClause(b.cols, |b.vals|, 0, mid, last)
  }

  function BoundTokens(b: Idx, mid: Op, last: Op, quote: Quoter): seq<Token>
    requires |b.vals| <= |b.cols|
  {
    if b.vals == [] then [] else ClauseTokens(BoundClause(b, mid, last), quote)
  }

  function WhereToken(o: Opts): seq<Token> {
    if Start(o).vals != [] || Stop(o).vals != [] then [Text(" WHERE ")] else []
  }

  function AndToken(o: Opts): seq<Token> {
    if Start(o).vals != [] && Stop(o).vals != [] then [Text(" AND ")] else []
  }

  function FromTokens(o: Opts, quote: Quoter): seq<Token>
    requires |Start(o).vals| <= |Start(o).cols|
  {
    WhereToken(o) + BoundTokens(Start(o), Gt, StartLast(o), quote)
  }

  function ToTokens(o: Opts, quote: Quoter): seq<Token>
    requires |Stop(o).vals| <= |Stop(o).cols|
  {
    AndToken(o) + BoundTokens(Stop(o), Lt, StopLast(o), quote)
  }

  function WhereTokens(o: Opts, quote: Quoter): seq<Token>
    requires RangeError(o) == None
  {
    FromTokens(o, quote) + ToTokens(o, quote)
  }

  function WhereArgs(o: Opts): seq<int> {
    RangeArgs(Start(o).vals, 0) + RangeArgs(Stop(o).vals, 0)
  }

  function OrderCols(o: Opts): seq<string> {
    if Start(o).cols != [] then Start(o).cols else Stop(o).cols
  }

  function DirText(reverse: bool): string { if reverse then " DESC" else " ASC" }

  /** One entry of the ORDER BY list, with the separator before it. */
  function OrderItem(cols: seq<string>, i: nat, reverse: bool, quote: Quoter): seq<Token>
    requires i < |cols|
  {
    (if i != 0 then [Text(", ")] else []) + [Text(quote(cols[i])), Text(DirText(reverse))]
  }

  function OrderItems(cols: seq<string>, i: nat, reverse: bool, quote: Quoter): seq<Token>
    requires i <= |cols|
    decreases |cols| - i
  {
    if i == |cols| then [] else OrderItem(cols, i, reverse, quote) + OrderItems(cols, i + 1, reverse, quote)
  }

  function OrderTokens(cols: seq<string>, reverse: bool, quote: Quoter): seq<Token> {
    [Text(" ORDER BY ")] + OrderItems(cols, 0, reverse, quote)
  }

  // What the statement selects, and in which order

  /** The condition of the statement on a row, its arguments bound to the holes from left to right. */
  predicate WhereHolds(o: Opts, row: Row, args: seq<int>)
    requires RangeError(o) == None
    requires |args| == Holes(BoundClause(Start(o), Gt, StartLast(o))) + Holes(BoundClause(Stop(o), Lt, StopLast(o)))
  {
    var start, stop := BoundClause(Start(o), Gt, StartLast(o)), BoundClause(Stop(o), Lt, StopLast(o));
    (start == [] || ClauseHolds(start, row, args[..Holes(start)]))
    && (stop == [] || ClauseHolds(stop, row, args[Holes(start)..]))
  }

  /** The tuple interval that the options ask for. */
  predicate InInterval(o: Opts, row: Row)
    requires RangeError(o) == None
  {
    var start, stop := Start(o), Stop(o);
    var low, high := Key(row, start.cols[..|start.vals|]), Key(row, stop.cols[..|stop.vals|]);
    (start.vals == [] || (if o.startInc.Some? then !TupleLess(low, start.vals) else TupleLess(start.vals, low)))
    && (stop.vals == [] || (if o.stopInc.Some? then !TupleLess(stop.vals, high) else TupleLess(high, stop.vals)))
  }

  /** The scan selects exactly the rows in the interval. */
  lemma ScanMeaning(o: Opts, row: Row)
    requires RangeError(o) == None
    ensures |WhereArgs(o)| == Holes(BoundClause(Start(o), Gt, StartLast(o))) + Holes(BoundClause(Stop(o), Lt, StopLast(o)))
    ensures WhereHolds(o, row, WhereArgs(o)) <==> InInterval(o, row)
  {
    var start, stop := Start(o), Stop(o);
    BoundMeaning(start, Gt, StartLast(o), row);
    BoundMeaning(stop, Lt, StopLast(o), row);
    var args, n := WhereArgs(o), |RangeArgs(start.vals, 0)|;
    assert args[..n] == RangeArgs(start.vals, 0) && args[n..] == RangeArgs(stop.vals, 0);
  }

  lemma BoundMeaning(b: Idx, mid: Op, last: Op, row: Row)
    requires |b.vals| <= |b.cols| && RangeOps(mid, last)
    ensures Holes(BoundClause(b, mid, last)) == |RangeArgs(b.vals, 0)|
    ensures BoundClause(b, mid, last) == [] <==> b.vals == []
    ensures b.vals != [] ==>
              (ClauseHolds(BoundClause(b, mid, last), row, RangeArgs(b.vals, 0))
               <==> Beyond(mid, last, Key(row, b.cols[..|b.vals|]), b.vals))
  {
    RangeHoles(b.cols, b.vals, 0, mid, last);
    if b.vals != [] {
      RangeMeaning(b.cols, b.vals, mid, last, row);
    }
  }

  /** What ORDER BY with one direction for all columns means for two rows. */
  predicate OrderedBefore(cols: seq<string>, reverse: bool, a: Row, b: Row) {
    cols != []
    && ((if reverse then a(cols[0]) > b(cols[0]) else a(cols[0]) < b(cols[0]))
        || (a(cols[0]) == b(cols[0]) && OrderedBefore(cols[1..], reverse, a, b)))
  }

  /** It is the order of the tuples, or its converse. */
  lemma {:induction false} OrderMeaning(cols: seq<string>, reverse: bool, a: Row, b: Row)
    ensures OrderedBefore(cols, reverse, a, b)
            <==> if reverse then TupleLess(Key(b, cols), Key(a, cols)) else TupleLess(Key(a, cols), Key(b, cols))
  {
    if cols != [] {
      OrderMeaning(cols[1..], reverse, a, b);
    }
  }

  // The whole statement

  function SelectError(o: Opts): Option<ScanError> {
    if o.prefix.Some? && (o.startInc.Some? || o.startEx.Some?) then Some(StartWithPrefix)
    else if o.prefix.Some? && (o.stopInc.Some? || o.stopEx.Some?) then Some(StopWithPrefix)
    else if o.prefix == None then RangeError(o)
    else None
  }

  function ScanErrorOf(o: Opts): Option<ScanError> {
    if SelectError(o).Some? then SelectError(o)
    else if o.limit < 0 then Some(NegativeLimit)
    else None
  }

  function PrefixAtoms(p: Idx): (ands: seq<Atom>)
    requires |p.vals| <= |p.cols|
    ensures |ands| == |p.vals|
  {
    seq(|p.vals|, i requires 0 <= i < |p.vals| => Atom(p.cols[i], Eq))
  }

  /** Equality on the given columns, in the order of the others. */
  function PrefixTokens(p: Idx, reverse: bool, quote: Quoter): seq<Token>
    requires |p.vals| <= |p.cols|
  {
    (if p.vals == [] then [] else [Text(" WHERE ")] + AndTokens(PrefixAtoms(p), quote))
    + (if |p.cols| == |p.vals| then [] else OrderTokens(p.cols[|p.vals|..], reverse, quote))
  }

  predicate PrefixFits(o: Opts) {
    o.prefix.Some? ==> |o.prefix.value.vals| <= |o.prefix.value.cols|
  }

  function SelectRange(o: Opts, quote: Quoter): seq<Token>
    requires RangeError(o) == None
  {
    WhereTokens(o, quote) + OrderTokens(OrderCols(o), o.reverse, quote)
  }

  function SelectTokens(o: Opts, quote: Quoter): seq<Token>
    requires SelectError(o) == None && PrefixFits(o)
  {
    if o.prefix.Some? then PrefixTokens(o.prefix.value, o.reverse, quote)
    else if HasRange(o) then SelectRange(o, quote)
    else []
  }

  function SelectArgs(o: Opts): seq<int> {
    if o.prefix.Some? then o.prefix.value.vals else if HasRange(o) then WhereArgs(o) else []
  }

  function LimitTokens(limit: int): seq<Token> {
    if limit > 0 then [Text(" LIMIT "), Text(Itoa(limit))] else []
  }

  function HeadTokens(name: string, adap: Adapter): seq<Token> {
    [Text("SELECT "), Text(adap.quote("data")), Text(" FROM "), Text(adap.quote(name))]
  }

  function ScanTokens(name: string, o: Opts, adap: Adapter): seq<Token>
    requires ScanErrorOf(o) == None && PrefixFits(o)
  {
    HeadTokens(name, adap) + SelectTokens(o, adap.quote) + LimitTokens(o.limit)
    + [Text(adap.lockText(o.lock))] + [Text(";")]
  }
}
