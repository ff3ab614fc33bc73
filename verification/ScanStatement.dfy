/** Building the statement of a scan, piece by piece (`buildScan` in be/schema/db/db.go). */
module ScanStatement {
  import opened Prelude
  import opened ScanRange
  import opened ScanText
  import ScanReading
  import Sql

  class ScanStmt {
    const opts: Opts
    const name: string
    const adap: Adapter
    var buf: string
    var args: seq<int>
    ghost var tokens: seq<Token>

    /** The buffer is the text of the tokens written so far. */
    ghost predicate Valid()
      reads this
    {
      buf == Plain(tokens)
    }

    constructor (opts: Opts, name: string, adap: Adapter)
      ensures this.opts == opts && this.name == name && this.adap == adap
      ensures Valid() && tokens == [] && args == []
    {
      this.opts, this.name, this.adap := opts, name, adap;
      buf, args, tokens := "", [], [];
    }

    method Write(s: string, ghost ts: seq<Token>)
      requires Valid() && (s == Plain(ts) || ts == [Text(s)])
      modifies this`buf, this`tokens
      ensures Valid() && tokens == old(tokens) + ts
    {
      PlainConcat(tokens, ts);
      PlainOne(Text(s));
      buf := buf + s;
      tokens := tokens + ts;
    }

    method AppendOrder(cols: seq<string>)
      requires Valid()
      modifies this`buf, this`tokens
      ensures Valid() && tokens == old(tokens) + OrderTokens(cols, opts.reverse, adap.quote)
    {
      ghost var reverse, quote := opts.reverse, adap.quote;
      Write(" ORDER BY ", [Text(" ORDER BY ")]);
      TokenAssoc(old(tokens), [Text(" ORDER BY ")], OrderItems(cols, 0, reverse, quote));
      for i := 0 to |cols|
        invariant Valid()
        invariant tokens + OrderItems(cols, i, reverse, quote) == old(tokens) + OrderTokens(cols, reverse, quote)
      {
        TokenAssoc(tokens, OrderItem(cols, i, reverse, quote), OrderItems(cols, i + 1, reverse, quote));
        AppendOrderItem(cols, i);
      }
      assert tokens + [] == tokens;
    }

    method AppendOrderItem(cols: seq<string>, i: nat)
      requires Valid() && i < |cols|
      modifies this`buf, this`tokens
      ensures Valid() && tokens == old(tokens) + OrderItem(cols, i, opts.reverse, adap.quote)
    {
      if i != 0 {
        Write(", ", [Text(", ")]);
      }
      Write(adap.quote(cols[i]), [Text(adap.quote(cols[i]))]);
      Write(DirText(opts.reverse), [Text(DirText(opts.reverse))]);
    }

    method AppendPrefix(p: Idx)
      requires |p.vals| <= |p.cols| && Valid()
      modifies this
      ensures Valid() && tokens == old(tokens) + PrefixTokens(p, opts.reverse, adap.quote)
      ensures args == old(args) + p.vals
    {
      ghost var equal := if p.vals == [] then [] else [Text(" WHERE ")] + AndTokens(PrefixAtoms(p), adap.quote);
      if |p.vals| != 0 {
        Write(" WHERE ", [Text(" WHERE ")]);
        AppendEqualities(p);
        TokenAssoc(old(tokens), [Text(" WHERE ")], AndTokens(PrefixAtoms(p), adap.quote));
      }
      assert tokens == old(tokens) + equal;
      var sortCols := p.cols[|p.vals|..];
      if |sortCols| != 0 {
        AppendOrder(sortCols);
        TokenAssoc(old(tokens), equal, OrderTokens(sortCols, opts.reverse, adap.quote));
      } else {
        assert equal + [] == equal;
      }
    }

    /** The loop of `appendPrefix`. */
    method AppendEqualities(p: Idx)
      requires 0 < |p.vals| <= |p.cols| && Valid()
      modifies this
      ensures Valid() && tokens == old(tokens) + AndTokens(PrefixAtoms(p), adap.quote)
      ensures args == old(args) + p.vals
    {
      hide PrefixAtoms, Pending, Conjunct, AndTokens;
      ghost var ands := PrefixAtoms(p);
      for i := 0 to |p.vals|
        invariant Valid()
        invariant args == old(args) + p.vals[..i]
        invariant tokens + Pending(ands, i, adap.quote) == old(tokens) + Pending(ands, 0, adap.quote)
      {
        PendingStep(tokens, ands, i, adap.quote);
        AppendEquality(p, i);
      }
      PendingEnds(tokens, ands, adap.quote);
    }

    method AppendEquality(p: Idx, i: nat)
      requires i < |p.vals| <= |p.cols| && Valid()
      modifies this
      ensures Valid() && tokens == old(tokens) + Conjunct(PrefixAtoms(p), i, adap.quote)
      ensures args == old(args) + [p.vals[i]]
    {
      ghost var atom := PrefixAtoms(p)[i];
      if i != 0 {
        Write(" AND ", [Text(" AND ")]);
      }
      PlainAtom(atom, adap.quote);
      Write(adap.quote(p.cols[i]) + " = ?", AtomTokens(atom, adap.quote));
      args := args + [p.vals[i]];
    }

    /** One side of the range. */
    method AppendBound(b: Idx, mid: Op, last: Op) returns (e: Option<ScanError>)
      requires Valid()
      modifies this
      ensures Valid()
      ensures e == if |b.vals| > |b.cols| then Some(MoreValsThanCols) else None
      ensures e == None ==> tokens == old(tokens) + BoundTokens(b, mid, last, adap.quote)
      ensures e == None ==> args == old(args) + RangeArgs(b.vals, 0)
    {
      if |b.vals| == 0 {
        return None;
      }
      var r := BuildRange(b.cols, b.vals, mid, last, adap.quote);
      if r.Err? {
        return Some(r.error);
      }
      var (text, more) := r.value;
      args := args + more;
      Write(text, BoundTokens(b, mid, last, adap.quote));
      return None;
    }

    method WriteIf(c: bool, s: string)
      requires Valid()
      modifies this`buf, this`tokens
      ensures Valid() && tokens == old(tokens) + if c then [Text(s)] else []
    {
      if c {
        Write(s, [Text(s)]);
      } else {
        assert tokens + [] == tokens;
      }
    }

    /** The keyword, and the condition on the start. */
    method AppendFrom() returns (e: Option<ScanError>)
      requires Valid() && OneEach(opts)
      modifies this
      ensures Valid() && e == if |Start(opts).vals| > |Start(opts).cols| then Some(MoreValsThanCols) else None
      ensures e == None ==> tokens == old(tokens) + FromTokens(opts, adap.quote)
      ensures e == None ==> args == old(args) + RangeArgs(Start(opts).vals, 0)
    {
      hide BoundTokens, RangeArgs;
      ghost var t := tokens;
      WriteIf(Start(opts).vals != [] || Stop(opts).vals != [], " WHERE ");
      e := AppendBound(Start(opts), Gt, StartLast(opts));
      if e == None {
        TokenAssoc(t, WhereToken(opts), BoundTokens(Start(opts), Gt, StartLast(opts), adap.quote));
      }
    }

    /** The conjunction, and the condition on the stop. */
    method AppendTo() returns (e: Option<ScanError>)
      requires Valid() && OneEach(opts)
      modifies this
      ensures Valid() && e == if |Stop(opts).vals| > |Stop(opts).cols| then Some(MoreValsThanCols) else None
      ensures e == None ==> tokens == old(tokens) + ToTokens(opts, adap.quote)
      ensures e == None ==> args == old(args) + RangeArgs(Stop(opts).vals, 0)
    {
      hide BoundTokens, RangeArgs;
      ghost var t := tokens;
      WriteIf(Start(opts).vals != [] && Stop(opts).vals != [], " AND ");
      e := AppendBound(Stop(opts), Lt, StopLast(opts));
      if e == None {
        TokenAssoc(t, AndToken(opts), BoundTokens(Stop(opts), Lt, StopLast(opts), adap.quote));
      }
    }

    /** The conditions of `appendRange`. */
    method AppendWhere() returns (e: Option<ScanError>)
      requires Valid() && OneEach(opts)
      modifies this
      ensures Valid() && e == RangeError(opts)
      ensures e == None ==> tokens == old(tokens) + WhereTokens(opts, adap.quote)
      ensures e == None ==> args == old(args) + WhereArgs(opts)
    {
      hide FromTokens, ToTokens, RangeArgs;
      ghost var t := tokens;
      e := AppendFrom();
      if e.Some? {
        return e;
      }
      e := AppendTo();
      if e == None {
        TokenAssoc(t, FromTokens(opts, adap.quote), ToTokens(opts, adap.quote));
      }
    }

    method AppendRange() returns (e: Option<ScanError>)
      requires HasRange(opts) && Valid()
      modifies this
      ensures Valid() && e == RangeError(opts)
      ensures e == None ==> tokens == old(tokens) + SelectRange(opts, adap.quote)
      ensures e == None ==> args == old(args) + WhereArgs(opts)
      ensures e == None ==> old(buf) <= buf && old(args) <= args
      ensures forall q :: e == None && opts.prefix == None && OrderCols(opts) != []
                          && ScanReading.ReadableCols(opts, adap.quote, q) ==>
                ScanReading.RangeReads(buf[|old(buf)|..], args[|old(args)|..], opts)
    {
      hide SelectRange, WhereTokens, WhereArgs, ScanReading.RangeReads, ScanReading.ReadableCols, OrderTokens;
      if opts.startInc.Some? && opts.startEx.Some? {
        return Some(TwoStarts);
      }
      if opts.stopInc.Some? && opts.stopEx.Some? {
        return Some(TwoStops);
      }
      e := AppendWhere();
      if e.Some? {
        return e;
      }
      TokenAssoc(old(tokens), WhereTokens(opts, adap.quote), OrderTokens(OrderCols(opts), opts.reverse, adap.quote));
      if |Start(opts).cols| != 0 {
        AppendOrder(Start(opts).cols);
      } else {
        AppendOrder(Stop(opts).cols);
      }
      RangeWritten(old(tokens));
      assert buf[|old(buf)|..] == Plain(SelectRange(opts, adap.quote)) && args[|old(args)|..] == WhereArgs(opts);
      forall q | opts.prefix == None && OrderCols(opts) != [] && ScanReading.ReadableCols(opts, adap.quote, q)
        ensures ScanReading.RangeReads(buf[|old(buf)|..], args[|old(args)|..], opts)
      {
        ScanReading.RangeTextReads(opts, adap.quote, q);
      }
      return None;
    }

    lemma RangeWritten(before: seq<Token>)
      requires RangeError(opts) == None && Valid()
      requires tokens == before + (WhereTokens(opts, adap.quote)
                                   + OrderTokens(OrderCols(opts), opts.reverse, adap.quote))
      ensures tokens == before + SelectRange(opts, adap.quote)
      ensures buf == Plain(before) + Plain(SelectRange(opts, adap.quote))
    {
      hide Plain;
      PlainConcat(before, SelectRange(opts, adap.quote));
    }

    /** What `buildScan` writes before the limit. */
    method AppendSelect() returns (e: Option<ScanError>)
      requires Valid() && args == [] && PrefixFits(opts)
      modifies this
      ensures Valid() && e == SelectError(opts)
      ensures e == None ==> tokens == old(tokens) + SelectTokens(opts, adap.quote)
      ensures e == None ==> args == SelectArgs(opts)
    {
      if opts.prefix.Some? {
        if opts.startInc.Some? || opts.startEx.Some? {
          return Some(StartWithPrefix);
        }
        if opts.stopInc.Some? || opts.stopEx.Some? {
          return Some(StopWithPrefix);
        }
        AppendPrefix(opts.prefix.value);
      } else if HasRange(opts) {
        e := AppendRange();
        return e;
      }
      return None;
    }

    /** `buildScan`. */
    method BuildScan() returns (r: Result<(string, seq<int>), ScanError>)
      requires Valid() && tokens == [] && args == [] && PrefixFits(opts)
      modifies this
      ensures match ScanErrorOf(opts)
              case Some(e) => r == Err(e)
              case None => r == Ok((Plain(ScanTokens(name, opts, adap)), SelectArgs(opts)))
      ensures forall q :: r.Ok? && ScanReading.Readable(name, opts, adap, q) ==>
                && (Sql.ReadQuery(r.value.0).Some? <==> !ScanReading.NoColumn(opts))
                && (!ScanReading.NoColumn(opts) ==> ScanReading.ReadsAs(r.value.0, r.value.1, name, opts, adap))
    {
      hide ScanReading.Readable, ScanReading.ReadsAs, ScanReading.NoColumn, Sql.ReadQuery;
      WriteHead();
      var e := AppendSelect();
      if e.Some? {
        return Err(e.value);
      }
      if opts.limit < 0 {
        return Err(NegativeLimit);
      }
      WriteLimit();
      Write(adap.lockText(opts.lock), [Text(adap.lockText(opts.lock))]);
      Write(";", [Text(";")]);
      forall q | ScanReading.Readable(name, opts, adap, q)
        ensures Sql.ReadQuery(buf).Some? <==> !ScanReading.NoColumn(opts)
        ensures !ScanReading.NoColumn(opts) ==> ScanReading.ReadsAs(buf, args, name, opts, adap)
      {
        ScanReading.StatementReads(name, opts, adap, q);
      }
      return Ok((buf, args));
    }

    method WriteHead()
      requires Valid() && tokens == []
      modifies this`buf, this`tokens
      ensures Valid() && tokens == HeadTokens(name, adap)
    {
      Write("SELECT ", [Text("SELECT ")]);
      Write(adap.quote("data"), [Text(adap.quote("data"))]);
      Write(" FROM ", [Text(" FROM ")]);
      Write(adap.quote(name), [Text(adap.quote(name))]);
    }

    method WriteLimit()
      requires Valid() && opts.limit >= 0
      modifies this`buf, this`tokens
      ensures Valid() && tokens == old(tokens) + LimitTokens(opts.limit)
    {
      if opts.limit > 0 {
        Write(" LIMIT ", [Text(" LIMIT ")]);
        Write(Itoa(opts.limit), [Text(Itoa(opts.limit))]);
      } else {
        assert tokens + [] == tokens;
      }
    }
  }

  lemma TokenAssoc(a: seq<Token>, b: seq<Token>, c: seq<Token>)
    ensures (a + b) + c == a + (b + c)
  {
  }

  function Conjunct(ands: seq<Atom>, i: nat, quote: Quoter): seq<Token>
    requires i < |ands|
  {
    (if i != 0 then [Text(" AND ")] else []) + AtomTokens(ands[i], quote)
  }

  /** What is still to be written of a conjunction after i atoms. */
  function Pending(ands: seq<Atom>, i: nat, quote: Quoter): seq<Token>
    requires i <= |ands|
    decreases |ands| - i
  {
    if i == |ands| then [] else Conjunct(ands, i, quote) + Pending(ands, i + 1, quote)
  }

  lemma PendingStep(t: seq<Token>, ands: seq<Atom>, i: nat, quote: Quoter)
    requires i < |ands|
    ensures t + Pending(ands, i, quote) == (t + Conjunct(ands, i, quote)) + Pending(ands, i + 1, quote)
  {
    TokenAssoc(t, Conjunct(ands, i, quote), Pending(ands, i + 1, quote));
  }

  /** Before the first atom all is to be written, and after the last nothing. */
  lemma PendingEnds(t: seq<Token>, ands: seq<Atom>, quote: Quoter)
    requires ands != []
    ensures Pending(ands, 0, quote) == AndTokens(ands, quote)
    ensures t + Pending(ands, |ands|, quote) == t
  {
    PendingIsAnd(ands, 0, quote);
    assert ands[0..] == ands;
  }

  lemma {:induction false} PendingIsAnd(ands: seq<Atom>, i: nat, quote: Quoter)
    requires i < |ands|
    ensures Pending(ands, i, quote) == (if i != 0 then [Text(" AND ")] else []) + AndTokens(ands[i..], quote)
    decreases |ands| - i
  {
    var sep, atom := if i != 0 then [Text(" AND ")] else [], AtomTokens(ands[i], quote);
    if i + 1 < |ands| {
      PendingIsAnd(ands, i + 1, quote);
      assert ands[i..][1..] == ands[i + 1..];
      TokenAssoc(sep, atom, Pending(ands, i + 1, quote));
    }
  }
}
