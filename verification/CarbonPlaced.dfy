/** How much of the amount the equalising matcher places: cutting an excess places it exactly, topping up never
does, and by target it is placed up to the book's liquidity unless the bisection ends below it. */
module CarbonPlaced {
  import opened Arith
  import opened Words
  import opened CarbonTrade
  import opened CarbonMatch

  // ----- cutting an excess

  /** Offered at most `most`, the order takes in exactly what it is offered. */
  ghost predicate ReportsUpTo(trade: TradeFn, o: Order, most: nat) {
    forall x: nat | x <= most :: trade(x, o).input == x
  }

  /** Offered no more than it takes in at these rates, each order takes in exactly what it is offered. */
  ghost predicate ReportsExactly(trade: TradeFn, orders: seq<Order>, rates: seq<Rate>) {
    |rates| <= |orders| && forall i | 0 <= i < |rates| :: ReportsUpTo(trade, orders[i], rates[i].input)
  }

  /** Inputs are cut from the last order on: a cut order trades its new input, and behind it nothing is left. */
  predicate CutFromTheEnd(before: seq<Rate>, after: seq<Rate>, orders: seq<Order>, trade: TradeFn)
    requires |before| == |after| <= |orders|
  {
    && (forall k | 0 <= k < |after| :: after[k] == before[k] || CutTo(before[k], after[k], orders[k], trade))
    && (forall k, j | 0 <= k < j < |after| && after[k].input < before[k].input :: after[j].input == 0)
  }

  predicate CutTo(before: Rate, after: Rate, o: Order, trade: TradeFn) {
    after.input < before.input && after == trade(after.input, o)
  }

  /** The rates with the i-th cut by as much of the excess as it holds. */
  function CutAt(rates: seq<Rate>, orders: seq<Order>, i: nat, excess: nat, trade: TradeFn): (next: seq<Rate>)
    requires i < |rates| <= |orders|
    ensures |next| == |rates|
  {
    var input := rates[i].input;
    if input == 0 then rates else rates[i := trade(input - Min(input, excess), orders[i])]
  }

  lemma CutAtTakes(rates: seq<Rate>, orders: seq<Order>, i: nat, excess: nat, trade: TradeFn)
    requires i < |rates| && ReportsExactly(trade, orders, rates) && 0 < excess < TWO_255
    ensures var next, cut := CutAt(rates, orders, i, excess, trade), Min(rates[i].input, excess);
            && Trimmed(rates, orders, excess, i + 1, trade) == Trimmed(next, orders, excess - cut, i, trade)
            && SumInputs(next) == SumInputs(rates) - cut && ReportsExactly(trade, orders, next)
            && next[i].input == rates[i].input - cut && next == rates[i := next[i]]
            && (next[i] == rates[i] || CutTo(rates[i], next[i], orders[i], trade))
  {
    hide Sub, SumInputs, Trimmed, ReportsUpTo;
    var input := rates[i].input;
    TrimmedStep(rates, orders, excess, i, trade);
    if input > 0 {
      var cut := Min(input, excess);
      var rate := trade(input - cut, orders[i]);
      OneReportsExactly(trade, orders[i], input, input - cut);
      DifferenceFits(excess, cut);
      SumUpdates(rates, i, rate);
      FewerReported(trade, orders, rates, i, rate);
    }
  }

  /** Cutting takes out the excess, all of it and no more. */
  lemma {:induction false} TrimmedIsExact(rates: seq<Rate>, orders: seq<Order>, amount: nat, excess: nat, i: nat,
      trade: TradeFn)
    requires i <= |rates| <= |orders| && ReportsExactly(trade, orders, rates)
    requires SumInputs(rates) == amount + excess < TWO_255
    requires excess > 0 ==> forall k | i <= k < |rates| :: rates[k].input == 0
    ensures var r := Trimmed(rates, orders, excess, i, trade);
            && SumInputs(r) == amount && CutFromTheEnd(rates, r, orders, trade)
            && r[i..] == rates[i..]
    decreases i
  {
    hide Sign, SumInputs, Trimmed, ReportsExactly, CutFromTheEnd, CutAt, CutTo;
    if i == 0 || excess == 0 {
      TrimmedEnds(rates, orders, excess, i, trade) by { PlainSign(excess); }
      NothingCut(rates, orders, trade);
      if excess > 0 {
        SumOfZeros(rates);
      }
    } else {
      var next, cut := CutAt(rates, orders, i - 1, excess, trade), Min(rates[i - 1].input, excess);
      CutAtTakes(rates, orders, i - 1, excess, trade);
      TrimmedIsExact(next, orders, amount, excess - cut, i - 1, trade);
      CutOneMore(rates, next[i - 1], Trimmed(next, orders, excess - cut, i - 1, trade), orders, i - 1, trade);
    }
  }

  lemma NothingCut(rates: seq<Rate>, orders: seq<Order>, trade: TradeFn)
    requires |rates| <= |orders|
    ensures CutFromTheEnd(rates, rates, orders, trade)
  {
  }

  lemma PlainSign(x: nat)
    requires x < TWO_255
    ensures Sign(x) > 0 <==> x > 0
  {
  }

  lemma OneReportsExactly(trade: TradeFn, o: Order, most: nat, x: nat)
    requires ReportsUpTo(trade, o, most) && x <= most
    ensures trade(x, o).input == x
  {
  }

  lemma FewerReported(trade: TradeFn, orders: seq<Order>, rates: seq<Rate>, i: nat, rate: Rate)
    requires ReportsExactly(trade, orders, rates) && i < |rates| && rate.input <= rates[i].input
    ensures ReportsExactly(trade, orders, rates[i := rate])
  {
    assert ReportsUpTo(trade, orders[i], rates[i].input);
  }

  lemma CutOneMore(rates: seq<Rate>, rate: Rate, r: seq<Rate>, orders: seq<Order>, i: nat, trade: TradeFn)
    requires |r| == |rates| <= |orders| && i < |rates| && (forall k | i < k < |rates| :: rates[k].input == 0)
    requires rate == rates[i] || CutTo(rates[i], rate, orders[i], trade)
    requires CutFromTheEnd(rates[i := rate], r, orders, trade) && r[i..] == rates[i := rate][i..]
    ensures CutFromTheEnd(rates, r, orders, trade) && r[i + 1..] == rates[i + 1..]
  {
    var next := rates[i := rate];
    assert forall k | i <= k < |r| :: r[k] == r[i..][k - i] == next[k];
  }

  // ----- how much the best match places

  /** An exact level is taken as it is, an excess is cut to the amount where the orders report exactly, and a level
      that falls short stays short. */
  lemma BestPlaces(ladder: seq<Order>, amount: nat, trade: TradeFn, equalize: EqualizeFn, most: nat)
    requires |ladder| > 1 && LimitsFit(ladder) && amount < most
    requires NeverOverReports(trade, ladder, most) && TotalsFit(ladder, trade, equalize, amount, most)
    ensures var level := ScanLevel(ladder, 1, amount, trade, equalize);
            var rates := BestRates(ladder, amount, trade, equalize);
            && (level.sign == 0 ==> rates == level.rates && SumInputs(rates) == amount)
            && (level.sign > 0 && ReportsExactly(trade, ladder, level.rates) ==>
                  SumInputs(rates) == amount && CutFromTheEnd(level.rates, rates, ladder, trade))
            && (level.sign < 0 ==>
                  && SumInputs(level.rates) <= SumInputs(rates) < amount
                  && Leaves(level.rates, rates, ladder, 0, amount - SumInputs(rates), trade))
  {
    hide TotalsFit, NeverOverReports, SumInputs, LimitsFit, ScanLevel, Trimmed, ToppedUp, Leaves, ReportsExactly,
      CutFromTheEnd;
    BestWithin(ladder, amount, trade, equalize, most);
    FitsShort(ladder, trade, equalize, amount, most);
    var level := ScanLevel(ladder, 1, amount, trade, equalize);
    if level.sign > 0 && ReportsExactly(trade, ladder, level.rates) {
      TrimmedIsExact(level.rates, ladder, amount, level.delta, |level.rates|, trade);
    }
  }

  /** What the filter drops. */
  function Rejected(rates: seq<Rate>, filter: Rate -> bool): nat {
    if rates == [] then 0
    else
      var last := |rates| - 1;
      Rejected(rates[..last], filter) + if filter(rates[last]) then 0 else rates[last].input
  }

  /** The actions spend what the rates take in, less what the filter drops. */
  lemma {:induction false} CollectAccounts(rates: seq<Rate>, quotes: seq<Quote>, filter: Rate -> bool)
    requires |rates| <= |quotes|
    ensures Spent(Collect(rates, quotes, filter)) + Rejected(rates, filter) == SumInputs(rates)
  {
    if rates != [] {
      var last := |rates| - 1;
      CollectAccounts(rates[..last], quotes, filter);
      assert rates == rates[..last] + [rates[last]];
      SumAppends(rates[..last], rates[last]);
      SpentAppends(Collect(rates[..last], quotes, filter),
        MatchAction(quotes[last].id, rates[last].input, rates[last].output));
    }
  }

  /** The actions are exactly the rates that pass the filter. */
  lemma {:induction false} CollectKeeps(rates: seq<Rate>, quotes: seq<Quote>, filter: Rate -> bool, a: MatchAction)
    requires |rates| <= |quotes|
    ensures a in Collect(rates, quotes, filter) <==>
              StandsFor(a, rates, quotes, |rates|) && filter(Rate(a.input, a.output))
  {
    if rates != [] {
      var last := |rates| - 1;
      var front := rates[..last];
      CollectKeeps(front, quotes, filter, a);
      var here := MatchAction(quotes[last].id, rates[last].input, rates[last].output);
      assert Rate(here.input, here.output) == rates[last];
      if StandsFor(a, front, quotes, last) {
        var i :| 0 <= i < last && a == MatchAction(quotes[i].id, front[i].input, front[i].output);
        assert a == MatchAction(quotes[i].id, rates[i].input, rates[i].output);
      }
      if StandsFor(a, rates, quotes, |rates|) && a != here {
        var i :| 0 <= i < |rates| && a == MatchAction(quotes[i].id, rates[i].input, rates[i].output);
        assert a == MatchAction(quotes[i].id, front[i].input, front[i].output);
      }
    }
  }

  /** What the default filter lets through is positive on both sides and clear of the sign bit. */
  lemma DefaultFilterIs(rate: Rate)
    ensures DefaultFilter(rate) <==> 0 < rate.input < TWO_255 && 0 < rate.output < TWO_255
  {
  }

  // ----- how much the greedy matcher places

  /** The quote was taken for all it offers, or what the filter saw of it, with at least `left` to place, was
      refused. */
  ghost predicate UsedUp(q: Quote, actions: seq<MatchAction>, left: nat, orders: map<string, Order>,
      filter: Rate -> bool, trade: TradeFn)
    requires q.id in orders
  {
    || (exists a :: a in actions && a.id == q.id && a.input == q.rate.input)
    || (exists r: nat :: r >= left && Refused(q, r, orders, filter, trade))
  }

  predicate Refused(q: Quote, remaining: nat, orders: map<string, Order>, filter: Rate -> bool, trade: TradeFn)
    requires q.id in orders
  {
    var input := Min(q.rate.input, remaining);
    !filter(Rate(input, trade(input, orders[q.id]).output))
  }

  /** The greedy matcher places the whole amount, or uses up every quote: what stays unplaced is what no order takes. */
  lemma {:induction false} FastUsesUp(remaining: nat, orders: map<string, Order>, quotes: seq<Quote>,
      filter: Rate -> bool, trade: TradeFn)
    requires forall q | q in quotes :: q.id in orders
    ensures var actions := FastActions(remaining, orders, quotes, filter, trade);
            Spent(actions) == remaining || (Spent(actions) < remaining &&
              forall q | q in quotes :: UsedUp(q, actions, remaining - Spent(actions), orders, filter, trade))
  {
    hide Spent, UsedUp;
    EmptyTraded(orders, filter, trade);
    if quotes != [] {
      var q, rest := quotes[0], quotes[1..];
      var input := Min(q.rate.input, remaining);
      var output := trade(input, orders[q.id]).output;
      FastWithinBudget(remaining, orders, quotes, filter, trade);
      if filter(Rate(input, output)) {
        FastUsesUp(remaining - input, orders, rest, filter, trade);
        var a := MatchAction(q.id, input, output);
        var later := if remaining == input then [] else FastActions(remaining - input, orders, rest, filter, trade);
        LeadsSpent(a, later);
        if Spent([a] + later) < remaining {
          FirstTaken(q, a, later, remaining - Spent([a] + later), orders, filter, trade);
          AllUsedUp(quotes, a, later, remaining - Spent([a] + later), orders, filter, trade);
        }
      } else {
        FastUsesUp(remaining, orders, rest, filter, trade);
        var actions := FastActions(remaining, orders, rest, filter, trade);
        if Spent(actions) < remaining {
          FirstRefused(quotes, actions, remaining, remaining - Spent(actions), orders, filter, trade);
        }
      }
    }
  }

  lemma FirstTaken(q: Quote, a: MatchAction, later: seq<MatchAction>, left: nat, orders: map<string, Order>,
      filter: Rate -> bool, trade: TradeFn)
    requires q.id in orders && a.id == q.id && a.input == q.rate.input
    ensures UsedUp(q, [a] + later, left, orders, filter, trade)
  {
    assert a in [a] + later;
  }

  lemma AllUsedUp(quotes: seq<Quote>, a: MatchAction, later: seq<MatchAction>, left: nat, orders: map<string, Order>,
      filter: Rate -> bool, trade: TradeFn)
    requires quotes != [] && forall q | q in quotes :: q.id in orders
    requires UsedUp(quotes[0], [a] + later, left, orders, filter, trade)
    requires forall q | q in quotes[1..] :: UsedUp(q, later, left, orders, filter, trade)
    ensures forall q | q in quotes :: UsedUp(q, [a] + later, left, orders, filter, trade)
  {
    hide UsedUp;
    forall q | q in quotes
      ensures UsedUp(q, [a] + later, left, orders, filter, trade)
    {
      if q != quotes[0] {
        assert q in quotes[1..];
        MoreActions(q, a, later, left, orders, filter, trade);
      }
    }
  }

  lemma FirstRefused(quotes: seq<Quote>, actions: seq<MatchAction>, remaining: nat, left: nat,
      orders: map<string, Order>, filter: Rate -> bool, trade: TradeFn)
    requires quotes != [] && (forall q | q in quotes :: q.id in orders) && left <= remaining
    requires Refused(quotes[0], remaining, orders, filter, trade)
    requires forall q | q in quotes[1..] :: UsedUp(q, actions, left, orders, filter, trade)
    ensures forall q | q in quotes :: UsedUp(q, actions, left, orders, filter, trade)
  {
    hide Refused;
    forall q | q in quotes
      ensures UsedUp(q, actions, left, orders, filter, trade)
    {
      if q != quotes[0] {
        assert q in quotes[1..];
      }
    }
  }

  lemma LeadsSpent(a: MatchAction, rest: seq<MatchAction>)
    ensures Spent([a] + rest) == a.input + Spent(rest)
  {
    assert ([a] + rest)[1..] == rest;
  }

  lemma MoreActions(q: Quote, a: MatchAction, actions: seq<MatchAction>, left: nat, orders: map<string, Order>,
      filter: Rate -> bool, trade: TradeFn)
    requires q.id in orders && UsedUp(q, actions, left, orders, filter, trade)
    ensures UsedUp(q, [a] + actions, left, orders, filter, trade)
  {
    if b :| b in actions && b.id == q.id && b.input == q.rate.input {
      assert b in [a] + actions;
    }
  }

  // ----- constant prices report exactly

  /** An order of constant price takes in exactly what it is offered, up to any amount whose output it can pay. */
  lemma FlatReportsUpTo(o: Order, most: nat)
    requires RateA(o) == 0 && most < TWO_255 && TradeTargetAmount(most, o) <= o.Y
    requires IsWord(Quotient(most * Mul(RateB(o), RateB(o)), ONE * ONE))
    ensures ReportsUpTo(RateBySource, o, most)
  {
    hide RateA, RateB, Mul, IsWord, MulDivDown;
    forall x: nat | x <= most
      ensures RateBySource(x, o).input == x
    {
      FlatTargetMono(o, x, most);
    }
  }

  /** Matching a book of constant prices by source amount, every level's rates are reported exactly. */
  lemma FlatBookReports(ladder: seq<Order>, rates: seq<Rate>, most: nat)
    requires RatesTraded(rates, ladder, RateBySource) && SumInputs(rates) <= most < TWO_255
    requires forall o | o in ladder ::
               RateA(o) == 0 && IsWord(Quotient(most * Mul(RateB(o), RateB(o)), ONE * ONE))
    ensures ReportsExactly(RateBySource, ladder, rates)
  {
    hide RateA, RateB, Mul, IsWord, Quotient, ReportsUpTo, RateBySource;
    forall i | 0 <= i < |rates|
      ensures ReportsUpTo(RateBySource, ladder[i], rates[i].input)
    {
      var o := ladder[i];
      assert IsTrade(rates[i], o, RateBySource);
      var x: nat :| RateBySource(x, o) == rates[i];
      assert o in ladder;
      PartOfSum(rates, i);
      RateIsPaid(x, o);
      FewerFit(rates[i].input, most, Mul(RateB(o), RateB(o)));
      FlatReportsUpTo(o, rates[i].input);
    }
  }

  lemma RateIsPaid(x: nat, o: Order)
    ensures TradeTargetAmount(RateBySource(x, o).input, o) <= o.Y
  {
    hide TradeTargetAmount, TradeSourceAmount;
    AffordableIsPaid(TradeSourceAmount(o.Y, o), o);
  }

  lemma FewerFit(x: nat, most: nat, b: nat)
    requires x <= most && IsWord(Quotient(most * b, ONE * ONE))
    ensures IsWord(Quotient(x * b, ONE * ONE))
  {
    MulMono(x, most, b);
    DivMono(x * b, most * b, ONE * ONE);
  }

  lemma FlatTargetMono(o: Order, x: nat, most: nat)
    requires RateA(o) == 0 && x <= most < TWO_255
    requires IsWord(Quotient(most * Mul(RateB(o), RateB(o)), ONE * ONE))
    ensures TradeTargetAmount(x, o) <= TradeTargetAmount(most, o)
  {
    hide ExpandRate, Mul, IsWord, MulDivDown, Quotient;
    MulDivDownMono(x, most, Mul(RateB(o), RateB(o)), ONE * ONE);
  }

  lemma MulDivDownMono(x: nat, y: nat, b: nat, d: nat)
    requires x <= y && IsWord(Quotient(y * b, d))
    ensures MulDivDown(x, b, d) <= MulDivDown(y, b, d)
  {
    hide IsWord;
    MulMono(x, y, b);
    if d > 0 {
      DivMono(x * b, y * b, d);
    }
    WordMono(Quotient(x * b, d), Quotient(y * b, d));
    WordBelow(Quotient(x * b, d));
    WordBelow(Quotient(y * b, d));
  }

  // ----- what equalising asks of an order

  /** No product of the order's limit leaves the word range. */
  predicate LimitProductsFit(o: Order, limit: nat) {
    IsWord(Times(o.Y, RateA(o)) + Times(o.Z, RateB(o))) && IsWord(Times(o.Z, limit))
  }

  /** The limit of an order with y units left is the price per unit of capacity at that point, rounded down. */
  lemma LimitIs(o: Order, y: nat, limit: nat)
    requires o.Z > 0 && y <= o.Y && LimitProductsFit(o, limit)
    ensures limit <= GetLimit(o.(Y := y)) <==> o.Z * limit <= y * RateA(o) + o.Z * RateB(o)
  {
    hide ExpandRate, Times, Mul, Add, Div, IsWord;
    var a, b := RateA(o), RateB(o);
    TimesIs(o.Y, a);
    TimesIs(o.Z, b);
    MulMono(y, o.Y, a);
    NonNegative(y, a);
    NonNegative(o.Z, b);
    WordMono(y * a + o.Z * b, o.Y * a + o.Z * b);
    WordMono(y * a, y * a + o.Z * b);
    WordMono(o.Z * b, y * a + o.Z * b);
    ProductFits(y, a, y * a);
    ProductFits(o.Z, b, o.Z * b);
    SumFits(y * a, o.Z * b);
    DivIs(y * a + o.Z * b, o.Z);
    FloorAtLeast(y * a + o.Z * b, o.Z, limit);
  }

  /** Bringing a sloped order to a limit sells the most units that leave its own limit no lower. */
  lemma EqualTargetIsMost(o: Order, limit: nat, u: nat)
    requires o.Z > 0 && RateA(o) > 0 && u <= o.Y && LimitProductsFit(o, limit) && limit <= GetLimit(o)
    ensures u <= EqualTarget(o, limit) <==> limit <= GetLimit(o.(Y := o.Y - u))
  {
    hide ExpandRate, Times, Mul, Add, Div, IsWord, GetLimit;
    var a, b := RateA(o), RateB(o);
    LimitIs(o, o.Y, limit);
    LimitIs(o, o.Y - u, limit);
    assert o.(Y := o.Y) == o;
    TimesIs(o.Y, a);
    TimesIs(o.Z, b);
    TimesIs(o.Z, limit);
    NonNegative(o.Y, a);
    NonNegative(o.Z, b);
    NonNegative(o.Z, limit);
    var num := o.Y * a + o.Z * b;
    WordMono(o.Y * a, num);
    WordMono(o.Z * b, num);
    ProductFits(o.Y, a, o.Y * a);
    ProductFits(o.Z, b, o.Z * b);
    ProductFits(o.Z, limit, o.Z * limit);
    SumFits(o.Y * a, o.Z * b);
    DivIs(num - o.Z * limit, a);
    FloorAtLeast(num - o.Z * limit, a, u);
    assert (o.Y - u) * a == o.Y * a - a * u;
  }

  /** A limit above the order's own asks nothing of it. */
  lemma EqualTargetAbove(o: Order, limit: nat)
    requires o.Z > 0 && RateA(o) > 0 && LimitProductsFit(o, limit) && GetLimit(o) < limit
    ensures EqualTarget(o, limit) == 0
  {
    hide ExpandRate, Times, Mul, Add, Div, IsWord, GetLimit;
    var a, b := RateA(o), RateB(o);
    LimitIs(o, o.Y, limit);
    assert o.(Y := o.Y) == o;
    TimesIs(o.Y, a);
    TimesIs(o.Z, b);
    TimesIs(o.Z, limit);
    NonNegative(o.Y, a);
    NonNegative(o.Z, b);
    NonNegative(o.Z, limit);
    WordMono(o.Y * a, o.Y * a + o.Z * b);
    WordMono(o.Z * b, o.Y * a + o.Z * b);
    ProductFits(o.Y, a, o.Y * a);
    ProductFits(o.Z, b, o.Z * b);
    ProductFits(o.Z, limit, o.Z * limit);
    SumFits(o.Y * a, o.Z * b);
  }

  /** By source, bringing an order to a limit takes the least input that sells as much. */
  lemma EqualSourceIsLeast(o: Order, limit: nat, x: nat)
    requires Sign(x) > 0 && o.Y > 0 && RateA(o) > 0
    requires PlainForTarget(o, EqualTarget(o, limit)) && PlainForSource(o, x)
    ensures Sign(EqualTarget(o, limit)) > 0 ==>
              (TradeTargetAmount(x, o) >= EqualTarget(o, limit) <==> x >= EqualSource(o, limit))
    ensures Sign(EqualTarget(o, limit)) <= 0 ==> EqualSource(o, limit) == 0
  {
    hide EqualTarget, TradeTargetAmount, TradeSourceAmount, PlainForTarget, PlainForSource, Sign, RateA;
    SmallTarget(EqualTarget(o, limit), o);
    if Sign(EqualTarget(o, limit)) > 0 {
      LeastInput(x, EqualTarget(o, limit), o);
    }
  }
}
