/**
 * The velocity trading backtest: `reversals` turns a velocity series into
 * alternating Buy/Sell events at the rows where the up and down velocities
 * cross, `_sim_eq` trades a fixed investment on those events and tallies the
 * result, and `simulate` runs every equity and derives profit and years at
 * risk.
 *
 * A row of the velocity frame is its date (a day number), the price column
 * and the two velocities; the result dictionary is the record `Tally`.
 */
module Backtest {

  import opened Optional

  /** One row of the velocity frame. */
  datatype Row = Row(date: int, price: real, up: real, down: real)

  datatype Action = Buy | Sell

  /** One reversal: the row it happened on, with that row's date and price. */
  datatype Event = Event(date: int, action: Action, index: nat, price: real)

  /** The counters of the result dictionary that the simulation updates. */
  datatype Tally = Tally(
    buyCount: nat,
    triggeredSellCount: nat,
    totalInvested: real,
    totalSales: real,
    totalProfit: real,
    daysAtRisk: int,
    yearsAtRisk: real)

  /** The result dictionary as `simulate` creates it. */
  function Zero(): Tally
  {
    Tally(0, 0, 0.0, 0.0, 0.0, 0, 0.0)
  }

  // ---------------------------------------------------------------------------
  // reversals
  // ---------------------------------------------------------------------------

  /**
   * The initial trend, scanning from row `i`: bullish unless the first row
   * whose velocities differ has `up < down`; bullish when all rows tie.
   */
  function TrendFrom(rows: seq<Row>, i: nat): (bullish: bool)
    requires i <= |rows|
    ensures !bullish ==> exists j :: i <= j < |rows| && rows[j].up < rows[j].down
    ensures (forall j :: i <= j < |rows| ==> rows[j].up == rows[j].down) ==> bullish
    decreases |rows| - i
  {
    if i == |rows| then true
    else if rows[i].up > rows[i].down then true
    else if rows[i].up < rows[i].down then false
    else TrendFrom(rows, i + 1)
  }

  /**
   * The events of rows `i ..`, the trend being `bullish` when row `i` is
   * reached: only a strict crossover against the trend emits, and flips it.
   */
  function EmitFrom(rows: seq<Row>, i: nat, bullish: bool): seq<Event>
    requires i <= |rows|
    decreases |rows| - i
  {
    if i == |rows| then []
    else if bullish && rows[i].up < rows[i].down then
      [Event(rows[i].date, Sell, i, rows[i].price)] + EmitFrom(rows, i + 1, false)
    else if !bullish && rows[i].up > rows[i].down then
      [Event(rows[i].date, Buy, i, rows[i].price)] + EmitFrom(rows, i + 1, true)
    else EmitFrom(rows, i + 1, bullish)
  }

  /** What `reversals` returns for a velocity frame. */
  function ReversalsOf(rows: seq<Row>): seq<Event>
  {
    EmitFrom(rows, 0, TrendFrom(rows, 0))
  }

  /** The first loop of `reversals`: the initial trend. */
  method InitialTrend(rows: seq<Row>) returns (bullish: bool)
    ensures bullish == TrendFrom(rows, 0)
  {
    bullish := true;
    var i := 0;
    while i < |rows|
      invariant i <= |rows| && TrendFrom(rows, i) == TrendFrom(rows, 0)
    {
      if rows[i].up > rows[i].down {
        break;
      }
      if rows[i].up < rows[i].down {
        bullish := false;
        break;
      }
      i := i + 1;
    }
  }

  /** `reversals`: determines the initial trend, then records every change of trend. */
  method Reversals(rows: seq<Row>) returns (revs: seq<Event>)
    ensures revs == ReversalsOf(rows)
  {
    var bullish := InitialTrend(rows);
    revs := [];
    for j := 0 to |rows|
      invariant revs + EmitFrom(rows, j, bullish) == ReversalsOf(rows)
    {
      if bullish && rows[j].up < rows[j].down {
        bullish := false;
        revs := revs + [Event(rows[j].date, Sell, j, rows[j].price)];
      } else if !bullish && rows[j].up > rows[j].down {
        bullish := true;
        revs := revs + [Event(rows[j].date, Buy, j, rows[j].price)];
      }
    }
  }

  /** Every event of rows `lo ..` comes from a row at or after `lo`, and carries that row's date and price. */
  ghost predicate FromRows(rows: seq<Row>, lo: nat, E: seq<Event>)
  {
    forall k :: 0 <= k < |E| ==>
      && lo <= E[k].index < |rows|
      && E[k].date == rows[E[k].index].date
      && E[k].price == rows[E[k].index].price
  }

  /** Every Sell is on a row with `up < down`, every Buy on a row with `up > down`. */
  ghost predicate StrictCrossings(rows: seq<Row>, E: seq<Event>)
    requires FromRows(rows, 0, E)
  {
    forall k :: 0 <= k < |E| ==>
      if E[k].action == Sell then rows[E[k].index].up < rows[E[k].index].down
      else rows[E[k].index].up > rows[E[k].index].down
  }

  /** Events are in strictly increasing row order, so no row emits twice. */
  ghost predicate IncreasingRows(E: seq<Event>)
  {
    forall a, b :: 0 <= a < b < |E| ==> E[a].index < E[b].index
  }

  /** Consecutive events never repeat an action. */
  ghost predicate Alternating(E: seq<Event>)
  {
    forall k :: 0 <= k < |E| - 1 ==> E[k].action != E[k + 1].action
  }

  lemma {:induction false} EmitFromRows(rows: seq<Row>, i: nat, bullish: bool)
    requires i <= |rows|
    ensures FromRows(rows, i, EmitFrom(rows, i, bullish))
    ensures StrictCrossings(rows, EmitFrom(rows, i, bullish))
    decreases |rows| - i
  {
    if i < |rows| {
      var flips := Against(rows[i], bullish);
      if flips {
        EmitFromRows(rows, i + 1, !bullish);
        var T := EmitFrom(rows, i + 1, !bullish);
        var E := EmitFrom(rows, i, bullish);
        assert E == [E[0]] + T;
        assert forall k :: 0 < k < |E| ==> E[k] == T[k - 1];
      } else {
        EmitFromRows(rows, i + 1, bullish);
        assert EmitFrom(rows, i, bullish) == EmitFrom(rows, i + 1, bullish);
      }
    }
  }

  lemma {:induction false} EmitFromIncreasing(rows: seq<Row>, i: nat, bullish: bool)
    requires i <= |rows|
    ensures IncreasingRows(EmitFrom(rows, i, bullish))
    decreases |rows| - i
  {
    if i < |rows| {
      var flips := Against(rows[i], bullish);
      if flips {
        EmitFromIncreasing(rows, i + 1, !bullish);
        var T := EmitFrom(rows, i + 1, !bullish);
        EmitFromRows(rows, i + 1, !bullish);
        var E := EmitFrom(rows, i, bullish);
        assert E == [E[0]] + T && E[0].index == i;
        forall a, b | 0 <= a < b < |E|
          ensures E[a].index < E[b].index
        {
          assert E[b] == T[b - 1];
          if a > 0 {
            assert E[a] == T[a - 1];
          }
        }
      } else {
        EmitFromIncreasing(rows, i + 1, bullish);
        assert EmitFrom(rows, i, bullish) == EmitFrom(rows, i + 1, bullish);
      }
    }
  }

  /** The events of rows `i ..` alternate, and the first one leaves the trend it starts in. */
  lemma {:induction false} EmitFromAlternates(rows: seq<Row>, i: nat, bullish: bool)
    requires i <= |rows|
    ensures Alternating(EmitFrom(rows, i, bullish))
    ensures EmitFrom(rows, i, bullish) != [] ==>
              EmitFrom(rows, i, bullish)[0].action == if bullish then Sell else Buy
    decreases |rows| - i
  {
    if i < |rows| {
      var flips := Against(rows[i], bullish);
      if flips {
        EmitFromAlternates(rows, i + 1, !bullish);
        var T := EmitFrom(rows, i + 1, !bullish);
        var E := EmitFrom(rows, i, bullish);
        assert E == [E[0]] + T;
        assert forall k :: 0 < k < |E| ==> E[k] == T[k - 1];
      } else {
        EmitFromAlternates(rows, i + 1, bullish);
        assert EmitFrom(rows, i, bullish) == EmitFrom(rows, i + 1, bullish);
      }
    }
  }

  /** The events in the order given by `reversals` are well formed. */
  lemma ReversalsWellFormed(rows: seq<Row>)
    ensures FromRows(rows, 0, ReversalsOf(rows))
    ensures StrictCrossings(rows, ReversalsOf(rows))
    ensures IncreasingRows(ReversalsOf(rows)) && Alternating(ReversalsOf(rows))
  {
    EmitFromRows(rows, 0, TrendFrom(rows, 0));
    EmitFromIncreasing(rows, 0, TrendFrom(rows, 0));
    EmitFromAlternates(rows, 0, TrendFrom(rows, 0));
  }

  /** Row `r` crosses against the trend `bullish`: the crossing `reversals` emits on. */
  predicate Against(r: Row, bullish: bool)
  {
    (bullish && r.up < r.down) || (!bullish && r.up > r.down)
  }

  /** No row of `[lo, hi)` crosses against the trend `bullish`. */
  ghost predicate Quiet(rows: seq<Row>, lo: int, hi: int, bullish: bool)
  {
    forall j :: lo <= j < hi && 0 <= j < |rows| ==> !Against(rows[j], bullish)
  }

  /**
   * Every crossing against the current trend emits: no row before the first
   * event crosses against the starting trend, no row between two events
   * crosses against the trend the earlier one set (after a Sell `up <= down`,
   * after a Buy `up >= down`), and likewise after the last event.
   */
  lemma {:induction false} EmitFromComplete(rows: seq<Row>, i: nat, bullish: bool)
    requires i <= |rows|
    ensures var E := EmitFrom(rows, i, bullish);
      && Quiet(rows, i, if |E| == 0 then |rows| else E[0].index, bullish)
      && QuietBetween(rows, E)
      && (|E| > 0 ==> Quiet(rows, E[|E| - 1].index + 1, |rows|, E[|E| - 1].action == Buy))
  {
    EmitFromQuietStart(rows, i, bullish);
    EmitFromQuietBetween(rows, i, bullish);
    EmitFromQuietEnd(rows, i, bullish);
  }

  /** Before the first event (or to the end, when there is none) no row crosses against `bullish`. */
  lemma {:induction false} EmitFromQuietStart(rows: seq<Row>, i: nat, bullish: bool)
    requires i <= |rows|
    ensures var E := EmitFrom(rows, i, bullish);
      Quiet(rows, i, if |E| == 0 then |rows| else E[0].index, bullish)
    decreases |rows| - i
  {
    if i < |rows| {
      var flips := Against(rows[i], bullish);
      if !flips {
        EmitFromQuietStart(rows, i + 1, bullish);
        assert EmitFrom(rows, i, bullish) == EmitFrom(rows, i + 1, bullish);
        assert !Against(rows[i], bullish);
      }
    }
  }

  /** Between two consecutive events of `E` no row crosses against the trend the earlier one set. */
  ghost predicate QuietBetween(rows: seq<Row>, E: seq<Event>)
  {
    forall k :: 0 <= k < |E| - 1 ==> Quiet(rows, E[k].index + 1, E[k + 1].index, E[k].action == Buy)
  }

  /** Between two consecutive events no row crosses against the trend the earlier one set. */
  lemma {:induction false} EmitFromQuietBetween(rows: seq<Row>, i: nat, bullish: bool)
    requires i <= |rows|
    ensures QuietBetween(rows, EmitFrom(rows, i, bullish))
    decreases |rows| - i
  {
    if i < |rows| {
      var flips := Against(rows[i], bullish);
      var next := if flips then !bullish else bullish;
      EmitFromQuietBetween(rows, i + 1, next);
      var T := EmitFrom(rows, i + 1, next);
      var E := EmitFrom(rows, i, bullish);
      if flips {
        EmitFromQuietStart(rows, i + 1, next);
        assert E == [E[0]] + T;
        assert E[0].index == i && (E[0].action == Buy) == next;
        forall k | 0 <= k < |E| - 1
          ensures Quiet(rows, E[k].index + 1, E[k + 1].index, E[k].action == Buy)
        {
          assert E[k + 1] == T[k];
          if k > 0 {
            assert E[k] == T[k - 1];
          }
        }
      } else {
        assert E == T;
      }
    }
  }

  /** After the last event no row crosses against the trend it set. */
  lemma {:induction false} EmitFromQuietEnd(rows: seq<Row>, i: nat, bullish: bool)
    requires i <= |rows|
    ensures var E := EmitFrom(rows, i, bullish);
      |E| > 0 ==> Quiet(rows, E[|E| - 1].index + 1, |rows|, E[|E| - 1].action == Buy)
    decreases |rows| - i
  {
    if i < |rows| {
      var flips := Against(rows[i], bullish);
      var next := if flips then !bullish else bullish;
      EmitFromQuietEnd(rows, i + 1, next);
      var T := EmitFrom(rows, i + 1, next);
      var E := EmitFrom(rows, i, bullish);
      if flips {
        assert E == [E[0]] + T;
        if |T| == 0 {
          EmitFromQuietStart(rows, i + 1, next);
          assert E[0].index == i && (E[0].action == Buy) == next;
        } else {
          assert E[|E| - 1] == T[|T| - 1];
        }
      } else {
        assert E == T;
      }
    }
  }

  /** `reversals` misses no crossing: every row crossing against the trend of the moment emits. */
  lemma ReversalsComplete(rows: seq<Row>)
    ensures var E := ReversalsOf(rows);
      && Quiet(rows, 0, if |E| == 0 then |rows| else E[0].index, TrendFrom(rows, 0))
      && QuietBetween(rows, E)
      && (|E| > 0 ==> Quiet(rows, E[|E| - 1].index + 1, |rows|, E[|E| - 1].action == Buy))
  {
    EmitFromComplete(rows, 0, TrendFrom(rows, 0));
  }

  /** Rows whose velocities tie emit nothing: `up == down` on every row means no events at all. */
  lemma {:induction false} TiesEmitNothing(rows: seq<Row>, i: nat, bullish: bool)
    requires i <= |rows|
    requires forall j :: i <= j < |rows| ==> rows[j].up == rows[j].down
    ensures EmitFrom(rows, i, bullish) == []
    decreases |rows| - i
  {
    if i < |rows| {
      TiesEmitNothing(rows, i + 1, bullish);
    }
  }

  lemma AllTiesNoReversals(rows: seq<Row>)
    requires forall j :: 0 <= j < |rows| ==> rows[j].up == rows[j].down
    ensures ReversalsOf(rows) == []
  {
    TiesEmitNothing(rows, 0, TrendFrom(rows, 0));
  }

  /** The trend found by the first loop is the one of the first row whose velocities differ. */
  lemma {:induction false} TrendIsFirstDifference(rows: seq<Row>, i: nat, f: nat)
    requires i <= f < |rows| && rows[f].up != rows[f].down
    requires forall j :: i <= j < f ==> rows[j].up == rows[j].down
    ensures TrendFrom(rows, i) == (rows[f].up > rows[f].down)
    decreases f - i
  {
    if i < f {
      TrendIsFirstDifference(rows, i + 1, f);
    }
  }

  /**
   * The first event is a Sell exactly when the first row whose velocities
   * differ has `up > down`, and it comes strictly after that row.
   */
  lemma FirstEvent(rows: seq<Row>, f: nat)
    requires f < |rows| && rows[f].up != rows[f].down
    requires forall j :: 0 <= j < f ==> rows[j].up == rows[j].down
    ensures ReversalsOf(rows) != [] ==>
              && (ReversalsOf(rows)[0].action == Sell <==> rows[f].up > rows[f].down)
              && ReversalsOf(rows)[0].index > f
  {
    var b := TrendFrom(rows, 0);
    TrendIsFirstDifference(rows, 0, f);
    EmitFromAlternates(rows, 0, b);
    EmitSkipsQuiet(rows, 0, f, b);
    EmitFromRows(rows, f + 1, b);
  }

  /** Rows that emit nothing in the current trend are skipped: through row `f` nothing is emitted. */
  lemma {:induction false} EmitSkipsQuiet(rows: seq<Row>, i: nat, f: nat, bullish: bool)
    requires i <= f < |rows|
    requires forall j :: i <= j < f ==> rows[j].up == rows[j].down
    requires bullish == (rows[f].up > rows[f].down)
    ensures EmitFrom(rows, i, bullish) == EmitFrom(rows, f + 1, bullish)
    decreases f - i
  {
    if i < f {
      EmitSkipsQuiet(rows, i + 1, f, bullish);
    }
  }

  // ---------------------------------------------------------------------------
  // _sim_eq
  // ---------------------------------------------------------------------------

  /** `invested` with `buyprice` and `buydate`: either out of the market or holding one position. */
  datatype Position = Flat | Holding(buyPrice: real, buyDate: int)

  ghost predicate PricesPositive(rows: seq<Row>)
  {
    forall i :: 0 <= i < |rows| ==> rows[i].price > 0.0
  }

  /** The proceeds of selling at `sell` what `investment` bought at `buy`. */
  function Proceeds(investment: real, sell: real, buy: real): (r: real)
    requires buy > 0.0
    ensures r * buy == investment * sell
  {
    investment * sell / buy
  }

  /**
   * One pass of the event loop: a Buy always (re)opens a position and is
   * counted; a Sell closes an open position and is counted, and does nothing
   * when flat.
   */
  function Trade(investment: real, pos: Position, t: Tally, e: Event): (r: (Position, Tally))
    requires e.price > 0.0 && (pos.Holding? ==> pos.buyPrice > 0.0)
    ensures e.action == Buy ==>
              && r.0 == Holding(e.price, e.date)
              && r.1 == t.(buyCount := t.buyCount + 1, totalInvested := t.totalInvested + investment)
    ensures e.action == Sell ==> r.0 == Flat && r.1.buyCount == t.buyCount && r.1.totalInvested == t.totalInvested
    ensures e.action == Sell && pos.Flat? ==> r.1 == t
    ensures e.action == Sell && pos.Holding? ==>
              r.1 == t.(triggeredSellCount := t.triggeredSellCount + 1,
                        totalSales := t.totalSales + Proceeds(investment, e.price, pos.buyPrice),
                        daysAtRisk := t.daysAtRisk + (e.date - pos.buyDate))
    ensures r.1.totalProfit == t.totalProfit && r.1.yearsAtRisk == t.yearsAtRisk
  {
    if e.action == Buy then
      (Holding(e.price, e.date),
       t.(buyCount := t.buyCount + 1, totalInvested := t.totalInvested + investment))
    else if pos.Holding? then
      (Flat,
       t.(triggeredSellCount := t.triggeredSellCount + 1,
          totalSales := t.totalSales + Proceeds(investment, e.price, pos.buyPrice),
          daysAtRisk := t.daysAtRisk + (e.date - pos.buyDate)))
    else (pos, t)
  }

  ghost predicate PositiveEvents(E: seq<Event>)
  {
    forall k :: 0 <= k < |E| ==> E[k].price > 0.0
  }

  /** The event loop run on `E` from position `pos` and tally `t`. */
  function Trades(investment: real, pos: Position, t: Tally, E: seq<Event>): (r: (Position, Tally))
    requires PositiveEvents(E) && (pos.Holding? ==> pos.buyPrice > 0.0)
    ensures r.0.Holding? ==> r.0.buyPrice > 0.0
    decreases |E|
  {
    if |E| == 0 then (pos, t)
    else
      var (p', t') := Trade(investment, pos, t, E[0]);
      Trades(investment, p', t', E[1..])
  }

  /** Cashing out at the last row: proceeds and days at risk, but no triggered sell. */
  function CloseOut(investment: real, pos: Position, t: Tally, last: Row): (r: Tally)
    requires last.price > 0.0 && (pos.Holding? ==> pos.buyPrice > 0.0)
    ensures r.buyCount == t.buyCount && r.triggeredSellCount == t.triggeredSellCount
    ensures r.totalInvested == t.totalInvested
    ensures r.totalProfit == t.totalProfit && r.yearsAtRisk == t.yearsAtRisk
    ensures pos.Flat? ==> r == t
  {
    if pos.Holding? then
      t.(totalSales := t.totalSales + Proceeds(investment, last.price, pos.buyPrice),
         daysAtRisk := t.daysAtRisk + (last.date - pos.buyDate))
    else t
  }

  lemma EventsPositive(rows: seq<Row>)
    requires PricesPositive(rows)
    ensures PositiveEvents(ReversalsOf(rows))
  {
    ReversalsWellFormed(rows);
  }

  /**
   * The tally after `_sim_eq` on one equity; `None` is a velocity frame whose
   * computation raised ValueError.
   */
  ghost function EquityOutcome(veldata: Option<seq<Row>>, investment: real, t: Tally): Tally
    requires veldata.Some? ==> |veldata.value| > 0 && PricesPositive(veldata.value)
  {
    match veldata
    case None => t
    case Some(rows) =>
      EventsPositive(rows);
      var (pos, t') := Trades(investment, Flat, t, ReversalsOf(rows));
      CloseOut(investment, pos, t', rows[|rows| - 1])
  }

  /** One pass of the loop of `_sim_eq`. */
  method ApplyEvent(rev: Event, investment: real, pos: Position, t: Tally) returns (pos': Position, t': Tally)
    requires rev.price > 0.0 && (pos.Holding? ==> pos.buyPrice > 0.0)
    ensures (pos', t') == Trade(investment, pos, t, rev)
  {
    pos', t' := pos, t;
    if rev.action == Buy {
      pos' := Holding(rev.price, rev.date);
      t' := t'.(buyCount := t'.buyCount + 1, totalInvested := t'.totalInvested + investment);
      return;
    }
    if pos'.Holding? && rev.action == Sell {
      t' := t'.(triggeredSellCount := t'.triggeredSellCount + 1,
                totalSales := t'.totalSales + investment * rev.price / pos'.buyPrice,
                daysAtRisk := t'.daysAtRisk + (rev.date - pos'.buyDate));
      pos' := Flat;
    }
  }

  /** The loop of `_sim_eq` over the reversals of one equity, starting flat. */
  method TradeEvents(revs: seq<Event>, investment: real, result: Tally) returns (pos: Position, t: Tally)
    requires PositiveEvents(revs)
    ensures (pos, t) == Trades(investment, Flat, result, revs)
  {
    t := result;
    pos := Flat;
    for k := 0 to |revs|
      invariant pos.Holding? ==> pos.buyPrice > 0.0
      invariant Trades(investment, pos, t, revs[k..]) == Trades(investment, Flat, result, revs)
    {
      assert revs[k..][1..] == revs[k + 1..];
      pos, t := ApplyEvent(revs[k], investment, pos, t);
    }
  }

  /** `_sim_eq`: trades one equity on its reversals and closes any position still open at the end. */
  method SimEquity(veldata: Option<seq<Row>>, investment: real, result: Tally) returns (t: Tally)
    requires veldata.Some? ==> |veldata.value| > 0 && PricesPositive(veldata.value)
    ensures t == EquityOutcome(veldata, investment, result)
  {
    t := result;
    if veldata.Some? {
      var rows := veldata.value;
      var revs := Reversals(rows);
      EventsPositive(rows);
      var pos;
      pos, t := TradeEvents(revs, investment, result);
      if pos.Holding? {
        var last := rows[|rows| - 1];
        t := t.(totalSales := t.totalSales + investment * last.price / pos.buyPrice,
                daysAtRisk := t.daysAtRisk + (last.date - pos.buyDate));
      }
    }
  }

  /**
   * What the event loop keeps: the money invested is the investment times
   * the buys, and every triggered sell closed a position a buy opened.
   */
  ghost predicate Balanced(investment: real, pos: Position, base: Tally, t: Tally)
  {
    && t.totalInvested - base.totalInvested == investment * (t.buyCount - base.buyCount) as real
    && (t.triggeredSellCount - base.triggeredSellCount) + (if pos.Holding? then 1 else 0)
         <= t.buyCount - base.buyCount
  }

  lemma {:induction false} TradesBalanced(investment: real, pos: Position, base: Tally, t: Tally, E: seq<Event>)
    requires PositiveEvents(E) && (pos.Holding? ==> pos.buyPrice > 0.0)
    requires Balanced(investment, pos, base, t)
    ensures Balanced(investment, Trades(investment, pos, t, E).0, base, Trades(investment, pos, t, E).1)
    ensures Trades(investment, pos, t, E).1.totalProfit == t.totalProfit
    ensures Trades(investment, pos, t, E).1.yearsAtRisk == t.yearsAtRisk
    decreases |E|
  {
    if |E| > 0 {
      var (p', t') := Trade(investment, pos, t, E[0]);
      assert t'.totalInvested - base.totalInvested == investment * (t'.buyCount - base.buyCount) as real by {
        if E[0].action == Buy {
          assert t'.buyCount - base.buyCount == (t.buyCount - base.buyCount) + 1;
        }
      }
      TradesBalanced(investment, p', base, t', E[1..]);
    }
  }

  /** A Sell while flat changes neither the position nor the tally. */
  lemma SellWhileFlat(investment: real, t: Tally, e: Event)
    requires e.price > 0.0 && e.action == Sell
    ensures Trade(investment, Flat, t, e) == (Flat, t)
  {
  }

  /**
   * One equity adds to Total Invested exactly the investment times the buys it
   * adds, never adds more triggered sells than buys, and leaves the profit and
   * years fields alone; an equity whose velocities raised ValueError changes nothing.
   */
  lemma EquityBalanced(veldata: Option<seq<Row>>, investment: real, t: Tally)
    requires veldata.Some? ==> |veldata.value| > 0 && PricesPositive(veldata.value)
    ensures var t' := EquityOutcome(veldata, investment, t);
      && t'.totalInvested - t.totalInvested == investment * (t'.buyCount - t.buyCount) as real
      && t'.triggeredSellCount - t.triggeredSellCount <= t'.buyCount - t.buyCount
      && t'.totalProfit == t.totalProfit && t'.yearsAtRisk == t.yearsAtRisk
    ensures veldata.None? ==> EquityOutcome(veldata, investment, t) == t
  {
    if veldata.Some? {
      var rows := veldata.value;
      EventsPositive(rows);
      TradesBalanced(investment, Flat, t, t, ReversalsOf(rows));
    }
  }

  /**
   * The final cash-out: a position still open after the last event is sold
   * at the last row's price and date, adding to Total Sales and Days at Risk
   * but not to Triggered Sell Count.
   */
  lemma ForcedClose(investment: real, buyPrice: real, buyDate: int, t: Tally, last: Row)
    requires last.price > 0.0 && buyPrice > 0.0
    ensures var t' := CloseOut(investment, Holding(buyPrice, buyDate), t, last);
      && t'.totalSales == t.totalSales + investment * last.price / buyPrice
      && t'.daysAtRisk == t.daysAtRisk + (last.date - buyDate)
      && t'.triggeredSellCount == t.triggeredSellCount
      && t'.buyCount == t.buyCount && t'.totalInvested == t.totalInvested
  {
  }

  // ---------------------------------------------------------------------------
  // simulate
  // ---------------------------------------------------------------------------

  /** Lines 77 and 78 of `simulate`: profit is sales less investment, and days become years of 365.25 days. */
  function Finalize(t: Tally): (r: Tally)
    ensures r.totalProfit == r.totalSales - r.totalInvested
    ensures r.yearsAtRisk * 365.25 == r.daysAtRisk as real
    ensures r.(totalProfit := t.totalProfit, yearsAtRisk := t.yearsAtRisk) == t
  {
    t.(totalProfit := t.totalSales - t.totalInvested, yearsAtRisk := t.daysAtRisk as real / 365.25)
  }

  ghost predicate Simulable(equities: seq<Option<seq<Row>>>)
  {
    forall i :: 0 <= i < |equities| ==>
      equities[i].Some? ==> |equities[i].value| > 0 && PricesPositive(equities[i].value)
  }

  /** The tally after `_sim_eq` has run on each equity in turn, starting from `t`. */
  ghost function Outcomes(equities: seq<Option<seq<Row>>>, investment: real, t: Tally): Tally
    requires Simulable(equities)
    decreases |equities|
  {
    if |equities| == 0 then t
    else
      var n := |equities| - 1;
      assert Simulable(equities[..n]) by {
        forall i | 0 <= i < n
          ensures equities[..n][i] == equities[i]
        {
        }
      }
      EquityOutcome(equities[n], investment, Outcomes(equities[..n], investment, t))
  }

  /**
   * Over all equities, Total Invested is the investment times Buy Count and
   * triggered sells never outnumber buys; profit and years are not touched.
   */
  lemma {:induction false} OutcomesBalanced(equities: seq<Option<seq<Row>>>, investment: real)
    requires Simulable(equities)
    ensures var t := Outcomes(equities, investment, Zero());
      && t.totalInvested == investment * t.buyCount as real
      && t.triggeredSellCount <= t.buyCount
    decreases |equities|
  {
    if |equities| > 0 {
      var n := |equities| - 1;
      assert Simulable(equities[..n]) by {
        forall i | 0 <= i < n
          ensures equities[..n][i] == equities[i]
        {
        }
      }
      OutcomesBalanced(equities[..n], investment);
      EquityBalanced(equities[n], investment, Outcomes(equities[..n], investment, Zero()));
    }
  }

  /**
   * `simulate` on velocity frames already computed per equity (`None` where
   * the computation raised ValueError): the result is the tally of `_sim_eq`
   * over the equities in order, completed by lines 77-78. So Total Invested
   * is the investment times Buy Count, triggered sells never outnumber buys,
   * and profit and years at risk follow from the totals.
   */
  method Simulate(equities: seq<Option<seq<Row>>>, investment: real) returns (result: Tally)
    requires Simulable(equities)
    ensures result == Finalize(Outcomes(equities, investment, Zero()))
    ensures result.totalInvested == investment * result.buyCount as real
    ensures result.triggeredSellCount <= result.buyCount
    ensures result.totalProfit == result.totalSales - result.totalInvested
    ensures result.yearsAtRisk * 365.25 == result.daysAtRisk as real
  {
    result := Zero();
    for i := 0 to |equities|
      invariant Simulable(equities[..i])
      invariant result == Outcomes(equities[..i], investment, Zero())
    {
      assert equities[..i + 1][..i] == equities[..i];
      result := SimEquity(equities[i], investment, result);
    }
    assert equities[..|equities|] == equities;
    OutcomesBalanced(equities, investment);
    result := Finalize(result);
  }
}
