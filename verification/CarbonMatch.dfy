/** Carbon's matchers: greedy over sorted quotes, and equalising by a scan over price levels, a bisection of
the last level and two repair passes. */
module CarbonMatch {
  import opened Arith
  import opened Words
  import opened CarbonTrade
  import opened CarbonStored

  datatype Rate = Rate(input: nat, output: nat)
  datatype Quote = Quote(id: string, rate: Rate)
  datatype MatchAction = MatchAction(id: string, input: nat, output: nat)

  type TradeFn = (nat, Order) -> Rate
  type EqualizeFn = (Order, nat) -> nat

  function SumInputs(rates: seq<Rate>): nat {
    if rates == [] then 0 else rates[0].input + SumInputs(rates[1..])
  }

  function Spent(actions: seq<MatchAction>): nat {
    if actions == [] then 0 else actions[0].input + Spent(actions[1..])
  }

  predicate DefaultFilter(rate: Rate) {
    Sign(rate.input) > 0 && Sign(rate.output) > 0
  }

  // ----- what one order gives for an amount

  /** The largest input at or below `input`, one unit at a time, whose output the order can pay. */
  function Affordable(input: nat, o: Order): nat {
    if TradeTargetAmount(input, o) > o.Y && Sign(input) > 0 then Affordable(input - 1, o) else input
  }

  function RateBySource(x: nat, o: Order): Rate {
    var output := TradeTargetAmount(x, o);
    if output <= o.Y then Rate(x, output)
    else
      var input := Affordable(TradeSourceAmount(o.Y, o), o);
      Rate(input, TradeTargetAmount(input, o))
  }

  method RateBySourceAmount(x: nat, o: Order) returns (rate: Rate)
    ensures rate == RateBySource(x, o)
    ensures rate.output <= o.Y
  {
    hide TradeTargetAmount, TradeSourceAmount;
    var input := x;
    var output := TradeTargetAmount(input, o);
    if output > o.Y {
      input := TradeSourceAmount(o.Y, o);
      output := TradeTargetAmount(input, o);
      while output > o.Y && Sign(input) > 0
        invariant output == TradeTargetAmount(input, o)
        invariant Affordable(input, o) == Affordable(TradeSourceAmount(o.Y, o), o)
        decreases input
      {
        input := input - 1;
        output := TradeTargetAmount(input, o);
      }
      NothingForNothing(input, o);
    }
    rate := Rate(input, output);
  }

  lemma NothingForNothing(x: nat, o: Order)
    ensures Sign(x) <= 0 ==> TradeTargetAmount(x, o) == 0
  {
    hide TargetOf, MulDivDown, ExpandRate, Mul;
  }

  lemma {:induction false} AffordableIsPaid(input: nat, o: Order)
    ensures Affordable(input, o) <= input && TradeTargetAmount(Affordable(input, o), o) <= o.Y
    ensures forall y | Affordable(input, o) < y <= input :: TradeTargetAmount(y, o) > o.Y
  {
    hide TradeTargetAmount;
    NothingForNothing(input, o);
    if TradeTargetAmount(input, o) > o.Y && Sign(input) > 0 {
      AffordableIsPaid(input - 1, o);
    }
  }

  /** An order is quoted what is offered if it can pay the output, and otherwise the most input, up to the cost of all
      it has, whose output it can pay; the output is that of the input. */
  lemma SourceRateIsMost(x: nat, o: Order)
    ensures var rate := RateBySource(x, o);
            && rate.output == TradeTargetAmount(rate.input, o) <= o.Y
            && (TradeTargetAmount(x, o) <= o.Y ==> rate.input == x)
            && (TradeTargetAmount(x, o) > o.Y ==>
                  && rate.input <= TradeSourceAmount(o.Y, o)
                  && forall y | rate.input < y <= TradeSourceAmount(o.Y, o) :: TradeTargetAmount(y, o) > o.Y)
  {
    hide TradeTargetAmount, TradeSourceAmount;
    AffordableIsPaid(TradeSourceAmount(o.Y, o), o);
  }

  /** Whatever is asked, an order is never made to pay more than its liquidity. */
  lemma SourceRateWithinOrder(x: nat, o: Order)
    ensures RateBySource(x, o).output <= o.Y
  {
    hide TradeTargetAmount, TradeSourceAmount;
    AffordableIsPaid(TradeSourceAmount(o.Y, o), o);
  }

  /** An order that never reports more input than it is offered, up to `most`: its price is constant, or its
      target never exceeds the exact curve's and rounding its cost is covered. */
  predicate ReportsWithin(o: Order, most: nat) {
    RateA(o) == 0 || o.Y == 0 || (PaysWithin(o, most) && RoundingCovered(o))
  }

  /** Every order as the contract stores it is one, for amounts whose product with T fits a word, if its lower
      price is not zero. */
  lemma StoredReportsWithin(o: Order, most: nat)
    requires Stored(o) && RateB(o) > 0 && IsWord(Times(Tee(o), most))
    ensures ReportsWithin(o, most)
  {
    hide ExpandRate, Times, Tee, Zed, Stored, InvertedFits, RoundingCovered, IsWord;
    if RateA(o) > 0 && o.Y > 0 {
      StoredSizes(o);
      StoredInverts(o);
      StoredCovered(o);
    }
  }

  lemma FlatSourceIsLeast(x: nat, y: nat, bSq: nat)
    requires IsWord(x) && bSq > 0 && MulDivDown(x, bSq, ONE * ONE) > y
    ensures MulDivUp(y, ONE * ONE, bSq) <= x
  {
    hide CeilDiv, IsWord;
    NonNegative(x, bSq);
    WordBelow(Quotient(x * bSq, ONE * ONE));
    CeilAtMost(y * (ONE * ONE), bSq, x);
    WordMono(CeilDiv(y * (ONE * ONE), bSq), x);
  }

  lemma FlatRateNeverOverspends(x: nat, o: Order)
    requires IsWord(x) && RateA(o) == 0 && TradeTargetAmount(x, o) > o.Y
    ensures TradeSourceAmount(o.Y, o) <= x
  {
    hide ExpandRate, MulDivDown, MulDivUp, Mul, IsWord;
    var b := RateB(o);
    NoPriceNoTarget(x);
    if Sign(o.Y) > 0 && Mul(b, b) > 0 {
      FlatSourceIsLeast(x, o.Y, Mul(b, b));
    }
  }

  lemma NoPriceNoTarget(x: nat)
    ensures MulDivDown(x, 0, ONE * ONE) == 0
  {
    assert x * 0 == 0;
  }

  /** Quoting an order by source never reports more input than was offered. */
  lemma SourceRateNeverOverspends(x: nat, o: Order, most: nat)
    requires x <= most && IsWord(x) && ReportsWithin(o, most)
    ensures RateBySource(x, o).input <= x
  {
    hide TradeTargetAmount, TradeSourceAmount, PaysWithin, RoundingCovered, RateA, IsWord;
    if TradeTargetAmount(x, o) > o.Y {
      NothingForNothing(x, o);
      NothingSold(x, o);
      if RateA(o) == 0 {
        FlatRateNeverOverspends(x, o);
      } else if Sign(o.Y) > 0 {
        BuyingMoreCostsAll(x, o, most);
      } else {
        SmallTarget(o.Y, o);
      }
      AffordableIsPaid(TradeSourceAmount(o.Y, o), o);
    }
  }

  lemma NothingSold(x: nat, o: Order)
    ensures o.Y == 0 ==> TradeTargetAmount(x, o) == 0
  {
    hide TargetOf, MulDivDown, ExpandRate, Mul, Add;
  }

  lemma SmallTarget(t: nat, o: Order)
    ensures Sign(t) <= 0 ==> TradeSourceAmount(t, o) == 0
  {
    hide SourceOf, MulDivUp, ExpandRate, Mul, Add;
  }

  function RateByTarget(t: nat, o: Order): Rate {
    var input := Min(t, o.Y);
    Rate(input, TradeSourceAmount(input, o))
  }

  // ----- the greedy matcher

  /** Actions the greedy matcher takes with `remaining` still to place. */
  function FastActions(remaining: nat, orders: map<string, Order>, quotes: seq<Quote>, filter: Rate -> bool,
      trade: TradeFn): seq<MatchAction>
    requires forall q | q in quotes :: q.id in orders
  {
    if quotes == [] then []
    else
      var q := quotes[0];
      var input := Min(q.rate.input, remaining);
      var output := trade(input, orders[q.id]).output;
      if filter(Rate(input, output)) then
        [MatchAction(q.id, input, output)] +
        if remaining == input then [] else FastActions(remaining - input, orders, quotes[1..], filter, trade)
      else FastActions(remaining, orders, quotes[1..], filter, trade)
  }

  /** Every action's output is what the trade function gives for its input, and it passed the filter. */
  ghost predicate ActionsTraded(actions: seq<MatchAction>, orders: map<string, Order>, filter: Rate -> bool,
      trade: TradeFn) {
    forall a | a in actions ::
      a.id in orders && a.output == trade(a.input, orders[a.id]).output && filter(Rate(a.input, a.output))
  }

  lemma FrontTraded(a: MatchAction, rest: seq<MatchAction>, orders: map<string, Order>, filter: Rate -> bool,
      trade: TradeFn)
    requires a.id in orders && a.output == trade(a.input, orders[a.id]).output && filter(Rate(a.input, a.output))
    requires ActionsTraded(rest, orders, filter, trade)
    ensures ActionsTraded([a] + rest, orders, filter, trade) && Spent([a] + rest) == a.input + Spent(rest)
  {
    assert ([a] + rest)[1..] == rest;
  }

  /** The greedy matcher never places more than the amount, and only as the trade function allows. */
  lemma {:induction false} FastWithinBudget(remaining: nat, orders: map<string, Order>, quotes: seq<Quote>,
      filter: Rate -> bool, trade: TradeFn)
    requires forall q | q in quotes :: q.id in orders
    ensures var actions := FastActions(remaining, orders, quotes, filter, trade);
            && Spent(actions) <= remaining
            && ActionsTraded(actions, orders, filter, trade)
            && |actions| <= |quotes|
  {
    hide ActionsTraded, Spent;
    EmptyTraded(orders, filter, trade);
    if quotes != [] {
      var q := quotes[0];
      var input := Min(q.rate.input, remaining);
      FastWithinBudget(remaining, orders, quotes[1..], filter, trade);
      FastWithinBudget(remaining - input, orders, quotes[1..], filter, trade);
      var output := trade(input, orders[q.id]).output;
      if filter(Rate(input, output)) {
        var rest := if remaining == input then []
          else FastActions(remaining - input, orders, quotes[1..], filter, trade);
        FrontTraded(MatchAction(q.id, input, output), rest, orders, filter, trade);
      }
    }
  }

  lemma EmptyTraded(orders: map<string, Order>, filter: Rate -> bool, trade: TradeFn)
    ensures ActionsTraded([], orders, filter, trade) && Spent([]) == 0
  {
  }

  /** One turn of the greedy matcher. */
  lemma FastStep(
      remaining: nat, orders: map<string, Order>, quotes: seq<Quote>, k: nat, filter: Rate -> bool, trade: TradeFn)
    requires (forall q | q in quotes :: q.id in orders) && k < |quotes|
    ensures var input := Min(quotes[k].rate.input, remaining);
            var output := trade(input, orders[quotes[k].id]).output;
            FastActions(remaining, orders, quotes[k..], filter, trade) ==
            if filter(Rate(input, output)) then
              [MatchAction(quotes[k].id, input, output)] +
              if remaining == input then [] else FastActions(remaining - input, orders, quotes[k + 1..], filter, trade)
            else FastActions(remaining, orders, quotes[k + 1..], filter, trade)
  {
    assert quotes[k..][0] == quotes[k] && quotes[k..][1..] == quotes[k + 1..];
  }

  method MatchFast(amount: nat, orders: map<string, Order>, quotes: seq<Quote>, filter: Rate -> bool, trade: TradeFn)
    returns (actions: seq<MatchAction>)
    requires forall q | q in quotes :: q.id in orders
    ensures actions == FastActions(amount, orders, quotes, filter, trade)
    ensures Spent(actions) <= amount && ActionsTraded(actions, orders, filter, trade)
  {
    hide ActionsTraded, Spent, FastActions;
    actions := [];
    var remaining := amount;
    FastWithinBudget(amount, orders, quotes, filter, trade);
    ghost var all := FastActions(amount, orders, quotes, filter, trade);
    assert quotes[0..] == quotes;
    for k := 0 to |quotes|
      invariant all == actions + FastActions(remaining, orders, quotes[k..], filter, trade)
    {
      var quote := quotes[k];
      FastStep(remaining, orders, quotes, k, filter, trade);
      var input := Min(quote.rate.input, remaining);
      var output := trade(input, orders[quote.id]).output;
      if filter(Rate(input, output)) {
        actions := actions + [MatchAction(quote.id, input, output)];
        if remaining == input {
          return;
        }
        remaining := remaining - input;
      }
    }
    FastEnds(remaining, orders, quotes, filter, trade);
  }

  lemma FastEnds(remaining: nat, orders: map<string, Order>, quotes: seq<Quote>, filter: Rate -> bool, trade: TradeFn)
    requires forall q | q in quotes :: q.id in orders
    ensures FastActions(remaining, orders, quotes[|quotes|..], filter, trade) == []
  {
  }

  // ----- the equalising matcher

  function GetLimit(o: Order): nat {
    if o.Z == 0 then 0 else Div(Add(Mul(o.Y, RateA(o)), Mul(o.Z, RateB(o))), o.Z)
  }

  function EqualTarget(o: Order, limit: nat): nat {
    var a := RateA(o);
    if a == 0 then o.Y
    else
      var num := Add(Mul(o.Y, a), Mul(o.Z, RateB(o)));
      var limitZ := Mul(o.Z, limit);
      if num <= limitZ then 0 else Div(num - limitZ, a)
  }

  function EqualSource(o: Order, limit: nat): nat {
    TradeSourceAmount(EqualTarget(o, limit), o)
  }

  /** Level of an amount: what each order trades when all are brought to the same limit. */
  function RatesAt(orders: seq<Order>, limit: nat, trade: TradeFn, equalize: EqualizeFn): (rates: seq<Rate>)
    ensures |rates| == |orders|
  {
    if orders == [] then []
    else
      var last := orders[|orders| - 1];
      RatesAt(orders[..|orders| - 1], limit, trade, equalize) + [trade(equalize(last, limit), last)]
  }

  /** With these orders the trade function never reports more input than it was offered, for amounts below `most`. */
  ghost predicate NeverOverReports(trade: TradeFn, orders: seq<Order>, most: nat) {
    forall x: nat, o | x < most && o in orders :: trade(x, o).input <= x
  }

  /** What the first n orders trade at the price of order n. */
  function LevelRates(ladder: seq<Order>, n: nat, trade: TradeFn, equalize: EqualizeFn): (rates: seq<Rate>)
    requires n < |ladder|
    ensures |rates| == n
  {
    RatesAt(ladder[..n], GetLimit(ladder[n]), trade, equalize)
  }

  /** A total as the matcher computes it, in words. */
  function WordTotal(rates: seq<Rate>): nat {
    SumInputs(rates) % TWO_256
  }

  function LevelTotal(ladder: seq<Order>, n: nat, trade: TradeFn, equalize: EqualizeFn): nat
    requires n < |ladder|
  {
    WordTotal(LevelRates(ladder, n, trade, equalize))
  }

  /** The scan gets to level n: every level before it asks for less than the amount. */
  predicate Reached(ladder: seq<Order>, n: nat, amount: nat, trade: TradeFn, equalize: EqualizeFn)
    requires n <= |ladder|
  {
    forall m | 1 <= m < n :: LevelTotal(ladder, m, trade, equalize) < amount
  }

  /** The limits tried at level n: its own and, if that asks for too much, those below the limit of the order before. */
  predicate Tried(ladder: seq<Order>, n: nat, limit: nat, amount: nat, trade: TradeFn, equalize: EqualizeFn)
    requires 1 <= n < |ladder|
  {
    || limit == GetLimit(ladder[n])
    || (LevelTotal(ladder, n, trade, equalize) > amount && GetLimit(ladder[n]) < limit < GetLimit(ladder[n - 1]))
  }

  predicate TotalFits(orders: seq<Order>, n: nat, limit: nat, trade: TradeFn, equalize: EqualizeFn, most: nat)
    requires n <= |orders|
  {
    SumInputs(RatesAt(orders[..n], limit, trade, equalize)) < most
  }

  /** At every limit that the matcher tries for this amount, the inputs stay below `most`, itself clear of the
      sign bit. */
  ghost predicate TotalsFit(ladder: seq<Order>, trade: TradeFn, equalize: EqualizeFn, amount: nat, most: nat) {
    && most <= TWO_255
    && forall n: nat, limit: nat | 1 <= n < |ladder| && Reached(ladder, n, amount, trade, equalize) &&
         Tried(ladder, n, limit, amount, trade, equalize) ::
         TotalFits(ladder, n, limit, trade, equalize, most)
  }

  ghost predicate LimitsFit(orders: seq<Order>) {
    forall o | o in orders :: GetLimit(o) < TWO_255
  }

  /** Every rate is a trade with its order. */
  ghost predicate RatesTraded(rates: seq<Rate>, orders: seq<Order>, trade: TradeFn) {
    |rates| <= |orders| && forall i | 0 <= i < |rates| :: IsTrade(rates[i], orders[i], trade)
  }

  /** The rate is what the order gives for some offered amount. */
  ghost predicate IsTrade(r: Rate, o: Order, trade: TradeFn) {
    exists x: nat :: trade(x, o) == r
  }

  lemma TradeIsTrade(x: nat, o: Order, trade: TradeFn)
    ensures IsTrade(trade(x, o), o, trade)
  {
  }

  /** How far the inputs of the rates are above or below the amount. */
  predicate Settled(rates: seq<Rate>, amount: nat, delta: nat, sign: int) {
    && (sign > 0 ==> SumInputs(rates) == amount + delta && delta > 0)
    && (sign < 0 ==> SumInputs(rates) + delta == amount && delta > 0)
    && (sign == 0 ==> SumInputs(rates) == amount)
  }

  lemma {:induction false} SumAppends(rates: seq<Rate>, r: Rate)
    ensures SumInputs(rates + [r]) == SumInputs(rates) + r.input
  {
    if rates != [] {
      assert (rates + [r])[1..] == rates[1..] + [r];
      SumAppends(rates[1..], r);
    }
  }

  lemma {:induction false} SumUpdates(rates: seq<Rate>, i: nat, r: Rate)
    requires i < |rates|
    ensures SumInputs(rates[i := r]) == SumInputs(rates) - rates[i].input + r.input
  {
    if i == 0 {
      assert rates[0 := r][1..] == rates[1..];
    } else {
      assert rates[i := r][1..] == rates[1..][i - 1 := r];
      SumUpdates(rates[1..], i - 1, r);
    }
  }

  lemma {:induction false} SumOfZeros(rates: seq<Rate>)
    requires forall r | r in rates :: r.input == 0
    ensures SumInputs(rates) == 0
  {
    if rates != [] {
      assert rates[0] in rates;
      SumOfZeros(rates[1..]);
    }
  }

  lemma {:induction false} PartOfSum(rates: seq<Rate>, i: nat)
    requires i < |rates|
    ensures rates[i].input <= SumInputs(rates)
  {
    if i > 0 {
      PartOfSum(rates[1..], i - 1);
    }
  }

  lemma {:induction false} RatesAtTraded(orders: seq<Order>, limit: nat, trade: TradeFn, equalize: EqualizeFn)
    ensures RatesTraded(RatesAt(orders, limit, trade, equalize), orders, trade)
  {
    if orders != [] {
      var last := |orders| - 1;
      RatesAtTraded(orders[..last], limit, trade, equalize);
      var rates := RatesAt(orders, limit, trade, equalize);
      var shorter := RatesAt(orders[..last], limit, trade, equalize);
      TradeIsTrade(equalize(orders[last], limit), orders[last], trade);
      forall i | 0 <= i < |rates|
        ensures IsTrade(rates[i], orders[i], trade)
      {
        if i < last {
          assert IsTrade(shorter[i], orders[..last][i], trade);
        }
      }
    }
  }

  /** Rates and their total at one limit, summed word by word. */
  method RatesAtLimit(orders: seq<Order>, n: nat, limit: nat, trade: TradeFn, equalize: EqualizeFn)
    returns (rates: seq<Rate>, total: nat)
    requires n <= |orders|
    ensures rates == RatesAt(orders[..n], limit, trade, equalize) && total == WordTotal(rates)
    ensures RatesTraded(rates, orders, trade)
  {
    rates, total := [], 0;
    for i := 0 to n
      invariant rates == RatesAt(orders[..i], limit, trade, equalize) && total == WordTotal(rates)
    {
      var rate := trade(equalize(orders[i], limit), orders[i]);
      SumAppends(rates, rate);
      assert orders[..i + 1][..i] == orders[..i];
      assert RatesAt(orders[..i + 1], limit, trade, equalize) == rates + [rate];
      WordSum(SumInputs(rates), rate.input);
      rates := rates + [rate];
      total := Add(total, rate.input);
    }
    RatesAtTraded(orders[..n], limit, trade, equalize);
    TradedInFront(rates, orders, n, trade);
  }

  lemma WordSum(sum: nat, x: nat)
    ensures Add(sum % TWO_256, x) == (sum + x) % TWO_256
  {
  }

  lemma WordTotalIs(rates: seq<Rate>, most: nat)
    requires SumInputs(rates) < most <= TWO_255
    ensures WordTotal(rates) == SumInputs(rates)
  {
    hide SumInputs;
  }

  lemma TradedInFront(rates: seq<Rate>, orders: seq<Order>, n: nat, trade: TradeFn)
    requires n <= |orders| && RatesTraded(rates, orders[..n], trade)
    ensures RatesTraded(rates, orders, trade)
  {
    forall i | 0 <= i < |rates|
      ensures IsTrade(rates[i], orders[i], trade)
    {
      assert IsTrade(rates[i], orders[..n][i], trade);
    }
  }

  method Settle(total: nat, amount: nat) returns (delta: nat, sign: int)
    ensures -1 <= sign <= 1
    ensures (sign > 0 <==> total > amount) && (sign < 0 <==> total < amount)
    ensures forall rates | total == WordTotal(rates) :: Level(rates, delta, sign) == LevelOf(rates, amount)
    ensures forall rates | total == SumInputs(rates) :: Settled(rates, amount, delta, sign)
  {
    if total > amount {
      delta, sign := total - amount, 1;
    } else if total < amount {
      delta, sign := amount - total, -1;
    } else {
      delta, sign := 0, 0;
    }
  }

  /** A level settled within a total clear of the sign bit. */
  predicate LevelSettled(l: Level, most: nat, amount: nat) {
    Settled(l.rates, amount, l.delta, l.sign) && SumInputs(l.rates) < most
  }

  /** Rates with how far, and which way, their total is from the amount. */
  datatype Level = Level(rates: seq<Rate>, delta: nat, sign: int)

  function LevelOf(rates: seq<Rate>, amount: nat): Level {
    var total := WordTotal(rates);
    if total > amount then Level(rates, total - amount, 1)
    else if total < amount then Level(rates, amount - total, -1)
    else Level(rates, 0, 0)
  }

  function LevelAt(orders: seq<Order>, n: nat, limit: nat, amount: nat, trade: TradeFn, equalize: EqualizeFn):
    (l: Level)
    requires n <= |orders|
    ensures |l.rates| == n
  {
    LevelOf(RatesAt(orders[..n], limit, trade, equalize), amount)
  }

  /** The bisection between two limits, from a level that asks for too much at the lower one. */
  function Bisected(orders: seq<Order>, n: nat, amount: nat, lo: nat, hi: nat, trade: TradeFn, equalize: EqualizeFn,
      level: Level): (l: Level)
    requires n <= |orders| && lo < TWO_255 && hi < TWO_255
    ensures |level.rates| == n ==> |l.rates| == n
    decreases hi - lo
  {
    MiddleLimit(lo, hi);
    if Add(lo, 1) >= hi then level
    else
      var limit := Add(lo, hi) / 2;
      var next := LevelAt(orders, n, limit, amount, trade, equalize);
      if next.sign == 0 then next
      else if next.sign > 0 then Bisected(orders, n, amount, limit, hi, trade, equalize, next)
      else Bisected(orders, n, amount, lo, limit, trade, equalize, next)
  }

  /** Bisection between the limits of two neighbouring levels; it ends because hi - lo shrinks. */
  method Bisect(orders: seq<Order>, n: nat, amount: nat, lowLimit: nat, highLimit: nat, trade: TradeFn,
      equalize: EqualizeFn, startRates: seq<Rate>, startDelta: nat)
    returns (rates: seq<Rate>, delta: nat, sign: int)
    requires n <= |orders| && lowLimit < TWO_255 && highLimit < TWO_255
    requires |startRates| == n && RatesTraded(startRates, orders, trade)
    ensures |rates| == n && RatesTraded(rates, orders, trade) && -1 <= sign <= 1
    ensures Level(rates, delta, sign) ==
            Bisected(orders, n, amount, lowLimit, highLimit, trade, equalize, Level(startRates, startDelta, 1))
  {
    hide RatesTraded, RatesAt, SumInputs, WordTotal, Add;
    var lo: nat, hi: nat := lowLimit, highLimit;
    rates, delta, sign := startRates, startDelta, 1;
    ghost var end := Bisected(orders, n, amount, lo, hi, trade, equalize, Level(startRates, startDelta, 1));
    MiddleLimit(lo, hi);
    while Add(lo, 1) < hi
      invariant lo < TWO_255 && hi < TWO_255
      invariant Add(lo, 1) < hi ==> lo < Add(lo, hi) / 2 < hi
      invariant |rates| == n && RatesTraded(rates, orders, trade) && -1 <= sign <= 1
      invariant end == Bisected(orders, n, amount, lo, hi, trade, equalize, Level(rates, delta, sign))
      decreases hi - lo
    {
      var limit := Add(lo, hi) / 2;
      var total;
      BisectedStep(orders, n, amount, lo, hi, trade, equalize, Level(rates, delta, sign));
      rates, total := RatesAtLimit(orders, n, limit, trade, equalize);
      delta, sign := Settle(total, amount);
      if sign == 0 {
        break;
      }
      if sign > 0 {
        lo := limit;
      } else {
        hi := limit;
      }
      MiddleLimit(lo, hi);
    }
  }

  lemma {:induction false} BisectedStep(orders: seq<Order>, n: nat, amount: nat, lo: nat, hi: nat, trade: TradeFn,
      equalize: EqualizeFn, level: Level)
    requires n <= |orders| && lo < TWO_255 && hi < TWO_255 && Add(lo, 1) < hi
    ensures lo < Add(lo, hi) / 2 < hi
    ensures var limit := Add(lo, hi) / 2;
            var next := LevelAt(orders, n, limit, amount, trade, equalize);
            Bisected(orders, n, amount, lo, hi, trade, equalize, level) ==
            if next.sign == 0 then next
            else if next.sign > 0 then Bisected(orders, n, amount, limit, hi, trade, equalize, next)
            else Bisected(orders, n, amount, lo, limit, trade, equalize, next)
  {
    hide LevelAt, Add;
    MiddleLimit(lo, hi);
  }

  lemma MiddleLimit(lo: nat, hi: nat)
    requires lo < TWO_255 && hi < TWO_255
    ensures Add(lo, 1) < hi ==> lo < Add(lo, hi) / 2 < hi
  {
  }

  /** A level at a limit of the bisection between `lo` and `hi`: it asks for exactly the amount, or for more while
      one limit further up it is less, or for less while one limit further down it is more. */
  predicate Crosses(l: Level, orders: seq<Order>, n: nat, limit: nat, amount: nat, lo: nat, hi: nat, trade: TradeFn,
      equalize: EqualizeFn)
    requires n <= |orders|
  {
    && (limit == lo || lo < limit < hi)
    && l == LevelAt(orders, n, limit, amount, trade, equalize)
    && (l.sign > 0 ==> limit + 1 >= hi || LevelAt(orders, n, limit + 1, amount, trade, equalize).sign < 0)
    && (l.sign < 0 ==> limit > lo && LevelAt(orders, n, limit - 1, amount, trade, equalize).sign > 0)
  }

  ghost predicate CrossesSomewhere(l: Level, orders: seq<Order>, n: nat, amount: nat, lo: nat, hi: nat,
      trade: TradeFn, equalize: EqualizeFn)
    requires n <= |orders|
  {
    exists limit: nat :: Crosses(l, orders, n, limit, amount, lo, hi, trade, equalize)
  }

  /** The bisection from `lo` and `hi` stops where the level crosses the amount. On its way the lower end asks for
      more, the upper end for less unless it is the one it began with, and the level at hand is that of one of the
      two. */
  lemma {:induction false} BisectedCrosses(orders: seq<Order>, n: nat, amount: nat, low: nat, high: nat, lo: nat,
      hi: nat, trade: TradeFn, equalize: EqualizeFn, level: Level)
    requires n <= |orders| && low <= lo < TWO_255 && hi <= high < TWO_255 && (lo == low || lo < hi)
    requires LevelAt(orders, n, lo, amount, trade, equalize).sign > 0
    requires hi == high || (LevelAt(orders, n, hi, amount, trade, equalize).sign < 0 && lo < hi)
    requires level == LevelAt(orders, n, lo, amount, trade, equalize) ||
             (hi < high && level == LevelAt(orders, n, hi, amount, trade, equalize))
    ensures CrossesSomewhere(Bisected(orders, n, amount, lo, hi, trade, equalize, level), orders, n, amount, low, high,
              trade, equalize)
    decreases hi - lo
  {
    hide LevelAt;
    MiddleLimit(lo, hi);
    if Add(lo, 1) >= hi {
      assert hi <= lo + 1;
      var limit := if level == LevelAt(orders, n, lo, amount, trade, equalize) then lo else hi;
      assert Crosses(level, orders, n, limit, amount, low, high, trade, equalize);
    } else {
      BisectedStep(orders, n, amount, lo, hi, trade, equalize, level);
      var limit := Add(lo, hi) / 2;
      var next := LevelAt(orders, n, limit, amount, trade, equalize);
      if next.sign == 0 {
        assert Crosses(next, orders, n, limit, amount, low, high, trade, equalize);
      } else if next.sign > 0 {
        BisectedCrosses(orders, n, amount, low, high, limit, hi, trade, equalize, next);
      } else {
        BisectedCrosses(orders, n, amount, low, high, lo, limit, trade, equalize, next);
      }
    }
  }

  /** The lower end of the bisection after k levels that all ask for more than the amount. */
  function LowAfter(lo: nat, hi: nat, k: nat): nat
    decreases k
  {
    if k == 0 then lo else LowAfter(Add(lo, hi) / 2, hi, k - 1)
  }

  /** Limits at the sign bit must be excluded: there the sum of the two ends wraps, and a bisection whose every level
      asks for more than the amount never ends. */
  lemma {:induction false} BisectionMayNotEnd(lo: nat, k: nat)
    requires lo <= TWO_255
    ensures Add(LowAfter(lo, U_MAX, k), 1) < U_MAX
    decreases k
  {
    if k > 0 {
      BisectionMayNotEnd(Add(lo, U_MAX) / 2, k - 1);
    }
  }

  lemma TradedUpdates(rates: seq<Rate>, orders: seq<Order>, trade: TradeFn, i: nat, x: nat)
    requires RatesTraded(rates, orders, trade) && i < |rates|
    ensures RatesTraded(rates[i := trade(x, orders[i])], orders, trade)
  {
    TradeIsTrade(x, orders[i], trade);
  }

  /** A word that holds a two's complement number. */
  predicate IsSigned(delta: nat, over: int) {
    0 < over + TWO_255 && over < TWO_255 && delta == over % TWO_256
  }

  lemma SignedSign(delta: nat, over: int)
    requires IsSigned(delta, over)
    ensures Sign(delta) > 0 <==> over > 0
    ensures over > 0 ==> delta == over
  {
  }

  lemma SignedFalls(delta: nat, over: int, fall: nat)
    requires IsSigned(delta, over) && over > 0 && fall < TWO_255
    ensures IsSigned(Sub(delta, fall), over - fall)
  {
  }

  /** The rates after cutting the first `i` orders, from the last on, until the excess `delta` is gone. */
  function Trimmed(rates: seq<Rate>, orders: seq<Order>, delta: nat, i: nat, trade: TradeFn): (r: seq<Rate>)
    requires i <= |rates| <= |orders|
    ensures |r| == |rates|
    decreases i
  {
    if i == 0 || Sign(delta) <= 0 then rates
    else
      var input := rates[i - 1].input;
      if input == 0 then Trimmed(rates, orders, delta, i - 1, trade)
      else
        var rate := trade(if input >= delta then input - delta else 0, orders[i - 1]);
        Trimmed(rates[i - 1 := rate], orders, if rate.input <= input then Sub(delta, input - rate.input) else delta,
          i - 1, trade)
  }

  /** Too much was placed: from the last order on, inputs are cut until the excess is gone. */
  method TrimExcess(startRates: seq<Rate>, orders: seq<Order>, excess: nat, trade: TradeFn)
    returns (rates: seq<Rate>)
    requires RatesTraded(startRates, orders, trade)
    ensures RatesTraded(rates, orders, trade) && |rates| == |startRates|
    ensures rates == Trimmed(startRates, orders, excess, |startRates|, trade)
  {
    assert |startRates| <= |orders|;
    hide RatesTraded, Sign, Sub, Trimmed;
    rates := startRates;
    var delta := excess;
    var i := |rates| - 1;
    while i >= 0 && Sign(delta) > 0
      invariant -1 <= i < |rates| == |startRates| && RatesTraded(rates, orders, trade)
      invariant Trimmed(startRates, orders, excess, |startRates|, trade) == Trimmed(rates, orders, delta, i + 1, trade)
    {
      TrimmedStep(rates, orders, delta, i, trade);
      if rates[i].input != 0 {
        var newInput := if rates[i].input >= delta then rates[i].input - delta else 0;
        var rate := trade(newInput, orders[i]);
        if rate.input <= rates[i].input {
          delta := Sub(delta, rates[i].input - rate.input);
        }
        TradedUpdates(rates, orders, trade, i, newInput);
        rates := rates[i := rate];
      }
      i := i - 1;
    }
    TrimmedEnds(rates, orders, delta, i + 1, trade);
  }

  /** Cutting brings the total down to the amount, or below it where a trade gives up more than was cut. The running
      excess is `over`, which can become negative; the code keeps it in the word `delta`. */
  lemma {:induction false} TrimmedWithin(rates: seq<Rate>, orders: seq<Order>, amount: nat, over: int, delta: nat,
      i: nat, trade: TradeFn, most: nat)
    requires i <= |rates| <= |orders| && NeverOverReports(trade, orders, most)
    requires SumInputs(rates) == amount + over < most <= TWO_255 && IsSigned(delta, over)
    requires over > 0 ==> forall k | i <= k < |rates| :: rates[k].input == 0
    ensures SumInputs(Trimmed(rates, orders, delta, i, trade)) <= amount
    decreases i
  {
    hide NeverOverReports, IsSigned, Sign, Sub, SumInputs, Trimmed;
    SignedSign(delta, over);
    if i == 0 || Sign(delta) <= 0 {
      TrimmedEnds(rates, orders, delta, i, trade);
      if over > 0 {
        SumOfZeros(rates);
      }
    } else {
      var input := rates[i - 1].input;
      TrimmedStep(rates, orders, delta, i - 1, trade);
      if input == 0 {
        TrimmedWithin(rates, orders, amount, over, delta, i - 1, trade, most);
      } else {
        var newInput := if input >= delta then input - delta else 0;
        var rate := trade(newInput, orders[i - 1]);
        PartOfSum(rates, i - 1);
        OneReports(trade, orders, i - 1, newInput, most);
        SumUpdates(rates, i - 1, rate);
        SignedFalls(delta, over, input - rate.input);
        TrimmedWithin(rates[i - 1 := rate], orders, amount, over - (input - rate.input),
          Sub(delta, input - rate.input), i - 1, trade, most);
      }
    }
  }

  lemma OneReports(trade: TradeFn, orders: seq<Order>, i: nat, x: nat, most: nat)
    requires NeverOverReports(trade, orders, most) && i < |orders| && x < most
    ensures trade(x, orders[i]).input <= x
  {
    assert orders[i] in orders;
  }

  lemma TrimmedStep(rates: seq<Rate>, orders: seq<Order>, delta: nat, i: nat, trade: TradeFn)
    requires i < |rates| <= |orders| && Sign(delta) > 0
    ensures Trimmed(rates, orders, delta, i + 1, trade) ==
            var input := rates[i].input;
            if input == 0 then Trimmed(rates, orders, delta, i, trade)
            else
              var rate := trade(if input >= delta then input - delta else 0, orders[i]);
              Trimmed(rates[i := rate], orders, if rate.input <= input then Sub(delta, input - rate.input) else delta,
                i, trade)
  {
    hide Sub;
  }

  lemma TrimmedEnds(rates: seq<Rate>, orders: seq<Order>, delta: nat, i: nat, trade: TradeFn)
    requires i <= |rates| <= |orders| && (i == 0 || Sign(delta) <= 0)
    ensures Trimmed(rates, orders, delta, i, trade) == rates
  {
  }

  lemma SignedStart(excess: nat)
    requires excess < TWO_255
    ensures IsSigned(excess, excess)
  {
  }

  /** The rates after offering the rest to each order from the i-th on, up to one that takes in all of it. */
  function ToppedUp(rates: seq<Rate>, orders: seq<Order>, delta: nat, i: nat, trade: TradeFn): (r: seq<Rate>)
    requires i <= |rates| <= |orders|
    ensures |r| == |rates|
    decreases |rates| - i
  {
    if i == |rates| then rates
    else
      var rate := trade(Add(rates[i].input, delta), orders[i]);
      var inputDiff := Sub(rate.input, rates[i].input);
      if inputDiff >= delta then rates else ToppedUp(rates[i := rate], orders, delta - inputDiff, i + 1, trade)
  }

  /** Too little was placed: each order in turn is offered the rest, as long as it does not take all of it. */
  method TopUp(startRates: seq<Rate>, orders: seq<Order>, missing: nat, trade: TradeFn) returns (rates: seq<Rate>)
    requires RatesTraded(startRates, orders, trade)
    ensures RatesTraded(rates, orders, trade) && |rates| == |startRates|
    ensures rates == ToppedUp(startRates, orders, missing, 0, trade)
  {
    assert |startRates| <= |orders|;
    hide RatesTraded, ToppedUp, Add, Sub;
    rates := startRates;
    var delta := missing;
    for i := 0 to |rates|
      invariant |rates| == |startRates| && RatesTraded(rates, orders, trade)
      invariant ToppedUp(startRates, orders, missing, 0, trade) == ToppedUp(rates, orders, delta, i, trade)
    {
      ToppedUpStep(rates, orders, delta, i, trade);
      var newInput := Add(rates[i].input, delta);
      var rate := trade(newInput, orders[i]);
      var inputDiff := Sub(rate.input, rates[i].input);
      if inputDiff >= delta {
        return;
      }
      TradedUpdates(rates, orders, trade, i, newInput);
      delta := delta - inputDiff;
      rates := rates[i := rate];
    }
    ToppedUpEnds(rates, orders, delta, trade);
  }

  lemma ToppedUpStep(rates: seq<Rate>, orders: seq<Order>, delta: nat, i: nat, trade: TradeFn)
    requires i < |rates| <= |orders|
    ensures ToppedUp(rates, orders, delta, i, trade) ==
            var rate := trade(Add(rates[i].input, delta), orders[i]);
            var inputDiff := Sub(rate.input, rates[i].input);
            if inputDiff >= delta then rates else ToppedUp(rates[i := rate], orders, delta - inputDiff, i + 1, trade)
  {
    hide Sub, Add;
  }

  lemma ToppedUpEnds(rates: seq<Rate>, orders: seq<Order>, delta: nat, trade: TradeFn)
    requires |rates| <= |orders|
    ensures ToppedUp(rates, orders, delta, |rates|, trade) == rates
  {
  }

  /** Where the top-up stopped, with `left` of the amount still not placed: every order before `stop` was offered
      the rest and refused a part of it; the one at `stop`, if any, would have taken in all that was left, or less
      than it had before; from there on nothing is changed. */
  ghost predicate StopsAt(before: seq<Rate>, after: seq<Rate>, orders: seq<Order>, from: nat, stop: nat, left: nat,
      trade: TradeFn)
    requires |before| == |after| <= |orders|
  {
    && from <= stop <= |after|
    && (forall k | 0 <= k < |after| && !(from <= k < stop) :: after[k] == before[k])
    && (forall k | from <= k < stop :: RefusesSome(before[k], after[k], orders[k], left, trade))
    && (stop < |after| ==> PassedOver(after[stop].input, orders[stop], left, trade))
  }

  ghost predicate Leaves(before: seq<Rate>, after: seq<Rate>, orders: seq<Order>, from: nat, left: nat,
      trade: TradeFn)
    requires |before| == |after| <= |orders|
  {
    exists stop: nat :: StopsAt(before, after, orders, from, stop, left, trade)
  }

  /** Offered what it had and at least `left` more, the order takes in some of that but not all. */
  ghost predicate RefusesSome(before: Rate, after: Rate, o: Order, left: nat, trade: TradeFn) {
    before.input <= after.input && exists x: nat :: RefusesPart(x, after, o, trade) && x >= before.input + left
  }

  predicate RefusesPart(x: nat, rate: Rate, o: Order, trade: TradeFn) {
    rate == trade(x, o) && rate.input < x
  }

  predicate PassedOver(input: nat, o: Order, left: nat, trade: TradeFn) {
    var rate := trade(input + left, o);
    rate.input == input + left || rate.input < input
  }

  /** Topping up never completes the amount: what is left when it stops is positive if something was missing, and is
      left although the order at which it stops takes it, or because every order has refused a part. */
  lemma {:induction false} ToppedUpLeaves(rates: seq<Rate>, orders: seq<Order>, amount: nat, delta: nat, i: nat,
      trade: TradeFn, most: nat)
    requires i <= |rates| <= |orders| && NeverOverReports(trade, orders, most)
    requires SumInputs(rates) + delta == amount < most <= TWO_255 && delta > 0
    ensures var r := ToppedUp(rates, orders, delta, i, trade);
            SumInputs(rates) <= SumInputs(r) < amount && Leaves(rates, r, orders, i, amount - SumInputs(r), trade)
    decreases |rates| - i
  {
    hide NeverOverReports, Sub, Add, SumInputs, ToppedUp;
    if i == |rates| {
      ToppedUpEnds(rates, orders, delta, trade);
      assert StopsAt(rates, rates, orders, i, i, amount - SumInputs(rates), trade);
    } else {
      PartOfSum(rates, i);
      ToppedUpStep(rates, orders, delta, i, trade);
      var newInput := rates[i].input + delta;
      OfferFits(rates[i].input, delta);
      var rate := trade(newInput, orders[i]);
      OneReports(trade, orders, i, newInput, most);
      TakenMore(rate.input, rates[i].input, delta);
      if Sub(rate.input, rates[i].input) >= delta {
        assert StopsAt(rates, rates, orders, i, i, amount - SumInputs(rates), trade);
      } else {
        var next := rates[i := rate];
        SumUpdates(rates, i, rate);
        var rest := delta - (rate.input - rates[i].input);
        ToppedUpLeaves(next, orders, amount, rest, i + 1, trade, most);
        var r := ToppedUp(next, orders, rest, i + 1, trade);
        var left := amount - SumInputs(r);
        var stop: nat :| StopsAt(next, r, orders, i + 1, stop, left, trade);
        assert r[i] == next[i];
        assert RefusesPart(newInput, rate, orders[i], trade);
        assert StopsAt(rates, r, orders, i, stop, left, trade);
      }
    }
  }

  lemma OfferFits(input: nat, delta: nat)
    requires input + delta < TWO_255
    ensures Add(input, delta) == input + delta
  {
  }

  lemma TakenMore(now: nat, before: nat, delta: nat)
    requires now <= before + delta < TWO_255
    ensures Sub(now, before) >= delta <==> now == before + delta || now < before
    ensures Sub(now, before) < delta ==> Sub(now, before) == now - before
  {
  }

  // ----- actions from rates

  function Collect(rates: seq<Rate>, quotes: seq<Quote>, filter: Rate -> bool): (actions: seq<MatchAction>)
    requires |rates| <= |quotes|
  {
    if rates == [] then []
    else
      var last := |rates| - 1;
      var rest := Collect(rates[..last], quotes, filter);
      if filter(rates[last]) then rest + [MatchAction(quotes[last].id, rates[last].input, rates[last].output)] else rest
  }

  lemma {:induction false} SpentAppends(actions: seq<MatchAction>, a: MatchAction)
    ensures Spent(actions + [a]) == Spent(actions) + a.input
  {
    if actions != [] {
      assert (actions + [a])[1..] == actions[1..] + [a];
      SpentAppends(actions[1..], a);
    }
  }

  predicate DistinctQuotes(quotes: seq<Quote>) {
    forall i, j | 0 <= i < j < |quotes| :: quotes[i].id != quotes[j].id
  }

  predicate DistinctActions(actions: seq<MatchAction>) {
    forall i, j | 0 <= i < j < |actions| :: actions[i].id != actions[j].id
  }

  /** The action stands for one of the first n quotes. */
  ghost predicate StandsFor(a: MatchAction, rates: seq<Rate>, quotes: seq<Quote>, n: nat) {
    exists i :: 0 <= i < n && i < |rates| && i < |quotes| &&
      a == MatchAction(quotes[i].id, rates[i].input, rates[i].output)
  }

  /** Filtering can only lower what is spent; every action stands for one rate, and no order gets two. */
  lemma {:induction false} CollectSpends(rates: seq<Rate>, quotes: seq<Quote>, filter: Rate -> bool, n: nat)
    requires n <= |rates| <= |quotes|
    ensures var actions := Collect(rates[..n], quotes, filter);
            && Spent(actions) <= SumInputs(rates[..n])
            && (forall a | a in actions :: StandsFor(a, rates, quotes, n))
            && (DistinctQuotes(quotes) ==> DistinctActions(actions))
  {
    if n > 0 {
      var last := n - 1;
      assert rates[..n][..last] == rates[..last];
      assert rates[..n] == rates[..last] + [rates[last]];
      CollectSpends(rates, quotes, filter, last);
      SumAppends(rates[..last], rates[last]);
      var rest := Collect(rates[..last], quotes, filter);
      var a := MatchAction(quotes[last].id, rates[last].input, rates[last].output);
      SpentAppends(rest, a);
      assert StandsFor(a, rates, quotes, n);
      forall b | b in rest
        ensures StandsFor(b, rates, quotes, n) && (DistinctQuotes(quotes) ==> b.id != a.id)
      {
        assert StandsFor(b, rates, quotes, last);
      }
      forall i | 0 <= i < |rest|
        ensures DistinctQuotes(quotes) ==> rest[i].id != a.id
      {
        assert rest[i] in rest;
      }
    }
  }

  const ZERO_ORDER: Order := Order(0, 0, 0, 0)

  /** The orders of the quotes, best first, with an empty order as the last level. */
  function Ladder(orders: map<string, Order>, quotes: seq<Quote>): (ladder: seq<Order>)
    requires forall q | q in quotes :: q.id in orders
    ensures |ladder| == |quotes| + 1 && ladder[|quotes|] == ZERO_ORDER
    ensures forall i | 0 <= i < |quotes| :: ladder[i] == orders[quotes[i].id]
  {
    seq(|quotes|, i requires 0 <= i < |quotes| => assert quotes[i] in quotes; orders[quotes[i].id]) + [ZERO_ORDER]
  }

  /** The scan over the levels from n on, with the bisection below the first that asks for more than the amount. */
  ghost function ScanLevel(ladder: seq<Order>, n: nat, amount: nat, trade: TradeFn, equalize: EqualizeFn): (l: Level)
    requires 1 <= n < |ladder| && LimitsFit(ladder)
    ensures |l.rates| < |ladder|
    decreases |ladder| - n
  {
    LimitsBelow(ladder, n);
    var limit := GetLimit(ladder[n]);
    var level := LevelAt(ladder, n, limit, amount, trade, equalize);
    if level.sign > 0 then Bisected(ladder, n, amount, limit, GetLimit(ladder[n - 1]), trade, equalize, level)
    else if level.sign == 0 || n + 1 == |ladder| then level
    else ScanLevel(ladder, n + 1, amount, trade, equalize)
  }

  /** What each order trades in the end: the level found, cut or topped up to the amount. */
  ghost function BestRates(ladder: seq<Order>, amount: nat, trade: TradeFn, equalize: EqualizeFn): (rates: seq<Rate>)
    requires |ladder| > 0 && LimitsFit(ladder)
    ensures |rates| < |ladder|
  {
    if |ladder| == 1 then []
    else
      var level := ScanLevel(ladder, 1, amount, trade, equalize);
      if level.sign > 0 then Trimmed(level.rates, ladder, level.delta, |level.rates|, trade)
      else if level.sign < 0 then ToppedUp(level.rates, ladder, level.delta, 0, trade)
      else level.rates
  }

  /** The scan, level by level, up to one that asks for at least the amount, and the bisection below it. */
  method FindLevel(ladder: seq<Order>, amount: nat, trade: TradeFn, equalize: EqualizeFn)
    returns (rates: seq<Rate>, delta: nat, sign: int)
    requires |ladder| > 1 && LimitsFit(ladder)
    ensures |rates| < |ladder| && RatesTraded(rates, ladder, trade)
    ensures Level(rates, delta, sign) == ScanLevel(ladder, 1, amount, trade, equalize)
  {
    hide GetLimit, RatesTraded, RatesAt, SumInputs, WordTotal, LimitsFit, ScanLevel, Bisected;
    ghost var found := ScanLevel(ladder, 1, amount, trade, equalize);
    rates, delta, sign := [], 0, 0;
    var n := 1;
    while n < |ladder|
      invariant 1 <= n <= |ladder|
      invariant n > 1 ==> |rates| < |ladder| && RatesTraded(rates, ladder, trade) && sign < 0
      invariant found == if n == |ladder| then Level(rates, delta, sign)
                         else ScanLevel(ladder, n, amount, trade, equalize)
    {
      var limit := GetLimit(ladder[n]);
      var total;
      rates, total := RatesAtLimit(ladder, n, limit, trade, equalize);
      delta, sign := Settle(total, amount);
      ScanStep(ladder, n, amount, trade, equalize);
      if sign == 0 {
        break;
      }
      if sign > 0 {
        rates, delta, sign := Bisect(ladder, n, amount, limit, GetLimit(ladder[n - 1]), trade, equalize, rates, delta);
        break;
      }
      n := n + 1;
    }
  }

  lemma ScanStep(ladder: seq<Order>, n: nat, amount: nat, trade: TradeFn, equalize: EqualizeFn)
    requires 1 <= n < |ladder| && LimitsFit(ladder)
    ensures GetLimit(ladder[n]) < TWO_255 && GetLimit(ladder[n - 1]) < TWO_255
    ensures var limit := GetLimit(ladder[n]);
            var level := LevelAt(ladder, n, limit, amount, trade, equalize);
            ScanLevel(ladder, n, amount, trade, equalize) ==
            if level.sign > 0 then Bisected(ladder, n, amount, limit, GetLimit(ladder[n - 1]), trade, equalize, level)
            else if level.sign == 0 || n + 1 == |ladder| then level
            else ScanLevel(ladder, n + 1, amount, trade, equalize)
  {
    hide GetLimit, LevelAt, Bisected, LimitsFit;
    LimitsBelow(ladder, n);
  }

  /** A level of order n found by the scan: every order before it asks for less than the amount; order n asks for at
      least that much, or is the last; the limit is its own, or where the level crosses the amount. */
  ghost predicate FoundAt(l: Level, ladder: seq<Order>, n: nat, limit: nat, amount: nat, trade: TradeFn,
      equalize: EqualizeFn) {
    && 1 <= n < |ladder| && Reached(ladder, n, amount, trade, equalize)
    && l == LevelAt(ladder, n, limit, amount, trade, equalize)
    && (LevelTotal(ladder, n, trade, equalize) < amount ==> n + 1 == |ladder|)
    && (LevelTotal(ladder, n, trade, equalize) <= amount ==> limit == GetLimit(ladder[n]))
    && (LevelTotal(ladder, n, trade, equalize) > amount ==>
          Crosses(l, ladder, n, limit, amount, GetLimit(ladder[n]), GetLimit(ladder[n - 1]), trade, equalize))
  }

  ghost predicate Found(l: Level, ladder: seq<Order>, amount: nat, trade: TradeFn, equalize: EqualizeFn) {
    exists n: nat, limit: nat :: FoundAt(l, ladder, n, limit, amount, trade, equalize)
  }

  /** What the scan and the bisection find. */
  lemma {:induction false} ScanFinds(ladder: seq<Order>, n: nat, amount: nat, trade: TradeFn, equalize: EqualizeFn)
    requires 1 <= n < |ladder| && LimitsFit(ladder) && Reached(ladder, n, amount, trade, equalize)
    ensures Found(ScanLevel(ladder, n, amount, trade, equalize), ladder, amount, trade, equalize)
    decreases |ladder| - n
  {
    hide GetLimit, LimitsFit, Reached, ScanLevel, Bisected, Crosses;
    ScanStep(ladder, n, amount, trade, equalize);
    ReachedNext(ladder, n, amount, trade, equalize);
    var lo, hi := GetLimit(ladder[n]), GetLimit(ladder[n - 1]);
    var level := LevelAt(ladder, n, lo, amount, trade, equalize);
    var found := ScanLevel(ladder, n, amount, trade, equalize);
    if level.sign > 0 {
      BisectedCrosses(ladder, n, amount, lo, hi, lo, hi, trade, equalize, level);
      var limit: nat :| Crosses(found, ladder, n, limit, amount, lo, hi, trade, equalize);
      CrossesAt(found, ladder, n, limit, amount, lo, hi, trade, equalize);
      assert FoundAt(found, ladder, n, limit, amount, trade, equalize);
    } else if level.sign == 0 || n + 1 == |ladder| {
      assert FoundAt(found, ladder, n, lo, amount, trade, equalize);
    } else {
      ScanFinds(ladder, n + 1, amount, trade, equalize);
    }
  }

  lemma CrossesAt(l: Level, orders: seq<Order>, n: nat, limit: nat, amount: nat, lo: nat, hi: nat, trade: TradeFn,
      equalize: EqualizeFn)
    requires n <= |orders| && Crosses(l, orders, n, limit, amount, lo, hi, trade, equalize)
    ensures l == LevelAt(orders, n, limit, amount, trade, equalize) && (limit == lo || lo < limit < hi)
  {
    hide LevelAt;
  }

  /** A level found where the totals fit is settled. */
  lemma FoundSettles(l: Level, ladder: seq<Order>, amount: nat, trade: TradeFn, equalize: EqualizeFn, most: nat)
    requires Found(l, ladder, amount, trade, equalize) && TotalsFit(ladder, trade, equalize, amount, most)
    ensures LevelSettled(l, most, amount)
  {
    hide GetLimit, RatesAt, SumInputs, Reached, Crosses;
    var n: nat, limit: nat :| FoundAt(l, ladder, n, limit, amount, trade, equalize);
    if LevelTotal(ladder, n, trade, equalize) > amount {
      CrossesAt(l, ladder, n, limit, amount, GetLimit(ladder[n]), GetLimit(ladder[n - 1]), trade, equalize);
    }
    assert Tried(ladder, n, limit, amount, trade, equalize);
    assert TotalFits(ladder, n, limit, trade, equalize, most);
    WordTotalIs(l.rates, most);
  }

  /** A level that the scan reaches and that asks for exactly the amount is the one it finds. */
  lemma ExactHitFound(l: Level, ladder: seq<Order>, n: nat, amount: nat, trade: TradeFn, equalize: EqualizeFn)
    requires Found(l, ladder, amount, trade, equalize) && 1 <= n < |ladder|
    requires Reached(ladder, n, amount, trade, equalize) && LevelTotal(ladder, n, trade, equalize) == amount
    ensures l == Level(LevelRates(ladder, n, trade, equalize), 0, 0)
  {
    hide GetLimit, RatesAt, WordTotal, Crosses;
    var m: nat, limit: nat :| FoundAt(l, ladder, m, limit, amount, trade, equalize);
    assert m == n;
  }

  /** The actions are the filtered rates of the level found, cut or topped up. For every trade function that
      reports no more input than offered, and totals below the sign bit at the limits tried, they never spend more
      than the amount. A level that asks for exactly the amount ends the scan and is taken as it is. For any trade
      function, each action is a trade with its own order. */
  method MatchBest(
      amount: nat, orders: map<string, Order>, quotes: seq<Quote>, filter: Rate -> bool, trade: TradeFn,
      equalize: EqualizeFn, ghost most: nat)
    returns (actions: seq<MatchAction>)
    requires forall q | q in quotes :: q.id in orders
    requires LimitsFit(Ladder(orders, quotes))
    ensures actions == Collect(BestRates(Ladder(orders, quotes), amount, trade, equalize), quotes, filter)
    ensures var ladder := Ladder(orders, quotes);
            NeverOverReports(trade, ladder, most) && TotalsFit(ladder, trade, equalize, amount, most) && amount < most
            ==> Spent(actions) <= amount
    ensures var ladder := Ladder(orders, quotes);
            forall n | 1 <= n < |ladder| && Reached(ladder, n, amount, trade, equalize) &&
              LevelTotal(ladder, n, trade, equalize) == amount ::
              actions == Collect(LevelRates(ladder, n, trade, equalize), quotes, filter)
    ensures forall a | a in actions :: a.id in orders && IsTrade(Rate(a.input, a.output), orders[a.id], trade)
    ensures DistinctQuotes(quotes) ==> DistinctActions(actions)
  {
    hide TotalsFit, Settled, NeverOverReports, RatesTraded, DistinctQuotes, DistinctActions, StandsFor, SumInputs,
      Collect, Reached, LevelTotal, LevelRates, LimitsFit, ScanLevel, Trimmed, ToppedUp, Found;
    if |quotes| == 0 {
      actions := [];
      NoActions();
      NothingCollected(quotes, filter);
      return;
    }
    var ladder := Ladder(orders, quotes);
    var rates, delta, sign := FindLevel(ladder, amount, trade, equalize);
    ReachedFirst(ladder, amount, trade, equalize);
    ScanFinds(ladder, 1, amount, trade, equalize);
    forall n | 1 <= n < |ladder| && Reached(ladder, n, amount, trade, equalize) &&
      LevelTotal(ladder, n, trade, equalize) == amount
      ensures sign == 0 && rates == LevelRates(ladder, n, trade, equalize)
    {
      ExactHitFound(Level(rates, delta, sign), ladder, n, amount, trade, equalize);
    }
    if NeverOverReports(trade, ladder, most) && TotalsFit(ladder, trade, equalize, amount, most) && amount < most {
      BestWithin(ladder, amount, trade, equalize, most);
    }
    if sign > 0 {
      rates := TrimExcess(rates, ladder, delta, trade);
    } else if sign < 0 {
      rates := TopUp(rates, ladder, delta, trade);
    }
    actions := Collect(rates, quotes, filter);
    assert rates[..|rates|] == rates;
    CollectSpends(rates, quotes, filter, |rates|);
    ActionsAreTrades(actions, rates, orders, quotes, trade);
  }

  /** Matching the best way stays within the amount, and falls short of it whenever the level found does. */
  lemma BestWithin(ladder: seq<Order>, amount: nat, trade: TradeFn, equalize: EqualizeFn, most: nat)
    requires |ladder| > 1 && LimitsFit(ladder) && amount < most
    requires NeverOverReports(trade, ladder, most) && TotalsFit(ladder, trade, equalize, amount, most)
    ensures var level := ScanLevel(ladder, 1, amount, trade, equalize);
            var rates := BestRates(ladder, amount, trade, equalize);
            && LevelSettled(level, most, amount) && SumInputs(rates) <= amount
            && (level.sign < 0 ==>
                  && SumInputs(level.rates) <= SumInputs(rates) < amount
                  && Leaves(level.rates, rates, ladder, 0, amount - SumInputs(rates), trade))
  {
    hide TotalsFit, NeverOverReports, SumInputs, Reached, LimitsFit, ScanLevel, Trimmed, ToppedUp, Found, Leaves,
      IsSigned;
    ReachedFirst(ladder, amount, trade, equalize);
    ScanFinds(ladder, 1, amount, trade, equalize);
    var level := ScanLevel(ladder, 1, amount, trade, equalize);
    FoundSettles(level, ladder, amount, trade, equalize, most);
    FitsShort(ladder, trade, equalize, amount, most);
    if level.sign > 0 {
      SignedStart(level.delta);
      TrimmedWithin(level.rates, ladder, amount, level.delta, level.delta, |level.rates|, trade, most);
    } else if level.sign < 0 {
      ToppedUpLeaves(level.rates, ladder, amount, level.delta, 0, trade, most);
    }
  }

  lemma NothingCollected(quotes: seq<Quote>, filter: Rate -> bool)
    ensures Collect([], quotes, filter) == []
  {
  }

  lemma ReachedFirst(ladder: seq<Order>, amount: nat, trade: TradeFn, equalize: EqualizeFn)
    requires |ladder| > 0
    ensures Reached(ladder, 1, amount, trade, equalize)
  {
  }

  lemma ReachedNext(ladder: seq<Order>, n: nat, amount: nat, trade: TradeFn, equalize: EqualizeFn)
    requires n < |ladder| && Reached(ladder, n, amount, trade, equalize)
    ensures LevelTotal(ladder, n, trade, equalize) < amount ==> Reached(ladder, n + 1, amount, trade, equalize)
  {
    hide LevelTotal;
  }

  lemma LimitsBelow(ladder: seq<Order>, n: nat)
    requires LimitsFit(ladder) && 1 <= n < |ladder|
    ensures GetLimit(ladder[n]) < TWO_255 && GetLimit(ladder[n - 1]) < TWO_255
  {
    hide GetLimit;
  }

  lemma FitsShort(ladder: seq<Order>, trade: TradeFn, equalize: EqualizeFn, amount: nat, most: nat)
    requires TotalsFit(ladder, trade, equalize, amount, most)
    ensures most <= TWO_255
  {
  }

  lemma NoActions()
    ensures Spent([]) == 0 && DistinctActions([])
  {
  }

  lemma ActionsAreTrades(actions: seq<MatchAction>, rates: seq<Rate>, orders: map<string, Order>, quotes: seq<Quote>,
      trade: TradeFn)
    requires |rates| <= |quotes| && (forall q | q in quotes :: q.id in orders)
    requires forall a | a in actions :: StandsFor(a, rates, quotes, |rates|)
    requires RatesTraded(rates, Ladder(orders, quotes), trade)
    ensures forall a | a in actions :: a.id in orders && IsTrade(Rate(a.input, a.output), orders[a.id], trade)
  {
    var ladder := Ladder(orders, quotes);
    forall a | a in actions
      ensures a.id in orders && IsTrade(Rate(a.input, a.output), orders[a.id], trade)
    {
      assert StandsFor(a, rates, quotes, |rates|);
      var i :| 0 <= i < |rates| && a == MatchAction(quotes[i].id, rates[i].input, rates[i].output);
      assert quotes[i] in quotes;
      assert IsTrade(rates[i], ladder[i], trade);
    }
  }

  // ----- the premises of the budget

  /** Matching by source amount meets the budget's premise for orders that report within what they are offered. */
  lemma SourceModeNeverOverReports(orders: seq<Order>, most: nat)
    requires most <= TWO_255 && forall o | o in orders :: ReportsWithin(o, most)
    ensures NeverOverReports(RateBySource, orders, most)
  {
    hide RateBySource, ReportsWithin;
    forall x: nat, o | x < most && o in orders
      ensures RateBySource(x, o).input <= x
    {
      SourceRateNeverOverspends(x, o, most);
    }
  }

  /** Only an order with a capacity of one unit can have a limit at the sign bit. */
  lemma LimitFits(o: Order)
    requires o.Z != 1
    ensures GetLimit(o) < TWO_255
  {
    hide Mul, RateA, RateB, Div;
    if o.Z >= 2 {
      var n := Add(Mul(o.Y, RateA(o)), Mul(o.Z, RateB(o)));
      DivIs(n, o.Z);
      FloorAtLeast(n, o.Z, TWO_255);
      MulMono(2, o.Z, TWO_255);
    }
  }

  lemma StoredLimitFits(o: Order)
    requires Stored(o)
    ensures GetLimit(o) < TWO_255
  {
    hide RateA, RateB, Mul, Div;
    if o.Z != 1 {
      LimitFits(o);
    } else {
      MulIsReduced(o.Y, RateA(o));
      MulIsReduced(1, RateB(o));
      MulMono(o.Y, 1, RateA(o));
      WordBelow(Mul(o.Y, RateA(o)) + Mul(1, RateB(o)));
    }
  }

  ghost predicate IdQuoted(id: string, quotes: seq<Quote>) {
    exists q :: q in quotes && q.id == id
  }

  ghost predicate AllQuoted(actions: seq<MatchAction>, quotes: seq<Quote>) {
    forall i | 0 <= i < |actions| :: IdQuoted(actions[i].id, quotes)
  }

  /** Actions on later quotes can be led by one on the first quote. */
  lemma LeadingAction(a: MatchAction, rest: seq<MatchAction>, quotes: seq<Quote>)
    requires quotes != [] && DistinctQuotes(quotes) && a.id == quotes[0].id
    requires DistinctActions(rest) && AllQuoted(rest, quotes[1..])
    ensures DistinctActions([a] + rest) && AllQuoted([a] + rest, quotes) && AllQuoted(rest, quotes)
  {
    assert quotes[0] in quotes;
    forall i | 0 <= i < |rest|
      ensures IdQuoted(rest[i].id, quotes) && rest[i].id != a.id
    {
      assert IdQuoted(rest[i].id, quotes[1..]);
      var p :| p in quotes[1..] && p.id == rest[i].id;
      assert p in quotes;
    }
  }

  /** The greedy matcher acts at most once per quoted order. */
  lemma {:induction false} FastIsDistinct(remaining: nat, orders: map<string, Order>, quotes: seq<Quote>,
      filter: Rate -> bool, trade: TradeFn)
    requires (forall q | q in quotes :: q.id in orders) && DistinctQuotes(quotes)
    ensures var actions := FastActions(remaining, orders, quotes, filter, trade);
            DistinctActions(actions) && AllQuoted(actions, quotes)
    decreases |quotes|
  {
    hide AllQuoted, DistinctActions;
    if quotes == [] {
      NothingQuoted(quotes);
    } else {
      var q := quotes[0];
      var input := Min(q.rate.input, remaining);
      FastIsDistinct(remaining, orders, quotes[1..], filter, trade);
      FastIsDistinct(remaining - input, orders, quotes[1..], filter, trade);
      NothingQuoted(quotes[1..]);
      var a := MatchAction(q.id, input, trade(input, orders[q.id]).output);
      LeadingAction(a, FastActions(remaining, orders, quotes[1..], filter, trade), quotes);
      LeadingAction(a, if remaining ==
        input then [] else FastActions(remaining - input, orders, quotes[1..], filter, trade), quotes);
    }
  }

  lemma NothingQuoted(quotes: seq<Quote>)
    ensures DistinctActions([]) && AllQuoted([], quotes)
  {
  }
}
