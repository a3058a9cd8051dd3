/** Matching by target amount: the whole amount is placed, up to the book's liquidity, unless the bisection ends on a
level that asks for less. */
module CarbonByTarget {
  import opened Arith
  import opened Words
  import opened Bits
  import opened CarbonTrade
  import opened CarbonStored
  import opened CarbonMatch
  import opened CarbonPlaced

  function SumY(orders: seq<Order>): nat {
    if orders == [] then 0 else SumY(orders[..|orders| - 1]) + orders[|orders| - 1].Y
  }

  lemma TargetModeNeverOverReports(orders: seq<Order>)
    ensures NeverOverReports(RateByTarget, orders, TWO_255)
  {
  }

  lemma {:induction false} TargetInputsBelowY(orders: seq<Order>, limit: nat)
    ensures SumInputs(RatesAt(orders, limit, RateByTarget, EqualTarget)) <= SumY(orders)
  {
    hide TradeSourceAmount, EqualTarget;
    if orders != [] {
      var last := |orders| - 1;
      TargetInputsBelowY(orders[..last], limit);
      SumAppends(RatesAt(orders[..last], limit, RateByTarget, EqualTarget),
        RateByTarget(EqualTarget(orders[last], limit), orders[last]));
    }
  }

  lemma {:induction false} SumYGrows(orders: seq<Order>, n: nat)
    requires n <= |orders|
    ensures SumY(orders[..n]) <= SumY(orders)
  {
    if n < |orders| {
      var last := |orders| - 1;
      SumYGrows(orders[..last], n);
      assert orders[..last][..n] == orders[..n];
    } else {
      assert orders[..n] == orders;
    }
  }

  /** Matching by target amount stays clear of the sign bit whenever the orders' liquidity does. */
  lemma TargetModeTotalsFit(orders: seq<Order>, amount: nat)
    requires SumY(orders) < TWO_255
    ensures TotalsFit(orders, RateByTarget, EqualTarget, amount, TWO_255)
  {
    hide Reached, Tried, RatesAt;
    forall n: nat, limit: nat | 1 <= n < |orders|
      ensures TotalFits(orders, n, limit, RateByTarget, EqualTarget, TWO_255)
    {
      TargetInputsBelowY(orders[..n], limit);
      SumYGrows(orders, n);
    }
  }

  // ----- what the orders give by target

  /** Brought to limit zero, the order is asked for all it has: its A y + B z does not wrap below A y. */
  predicate AsksAll(o: Order) {
    EqualTarget(o, 0) >= o.Y
  }

  lemma StoredAsksAll(o: Order)
    requires Stored(o)
    ensures AsksAll(o)
  {
    hide ExpandRate, Mul, Div, Add;
    var a, b := RateA(o), RateB(o);
    FieldProduct(o.Y, a);
    FieldProduct(o.Z, b);
    SumFits(o.Y * a, o.Z * b);
    ProductFits(o.Z, 0, 0);
    if a > 0 {
      var num := o.Y * a + o.Z * b;
      DivIs(num, a);
      FloorAtLeast(num, a, o.Y);
      if o.Y > 0 {
        MulAtLeast(o.Y, a);
      }
    }
  }

  lemma FieldProduct(x: nat, rate: nat)
    requires x < TWO_128 && rate < ONE * ONE
    ensures 0 <= x * rate < TWO_255 && Mul(x, rate) == x * rate
  {
    hide Mul;
    ProductMono(x, rate, TWO_128, ONE * ONE);
    ProductFits(x, rate, x * rate);
  }

  /** At limit zero every order gives all it has. */
  lemma {:induction false} AllAtLimitZero(orders: seq<Order>)
    requires forall o | o in orders :: AsksAll(o)
    ensures SumInputs(RatesAt(orders, 0, RateByTarget, EqualTarget)) == SumY(orders)
  {
    hide TradeSourceAmount, EqualTarget;
    if orders != [] {
      var last := |orders| - 1;
      AllAtLimitZero(orders[..last]);
      assert orders[last] in orders;
      SumAppends(RatesAt(orders[..last], 0, RateByTarget, EqualTarget),
        RateByTarget(EqualTarget(orders[last], 0), orders[last]));
    }
  }

  /** No order gives more than it has. */
  predicate WithinY(rates: seq<Rate>, orders: seq<Order>) {
    |rates| <= |orders| && forall i | 0 <= i < |rates| :: rates[i].input <= orders[i].Y
  }

  lemma TradedWithinY(rates: seq<Rate>, orders: seq<Order>)
    requires RatesTraded(rates, orders, RateByTarget)
    ensures WithinY(rates, orders)
  {
    hide TradeSourceAmount;
    forall i | 0 <= i < |rates|
      ensures rates[i].input <= orders[i].Y
    {
      assert IsTrade(rates[i], orders[i], RateByTarget);
    }
  }

  /** The first n orders give no more than they have, and not less if each gives all. */
  lemma {:induction false} SumWithinY(rates: seq<Rate>, orders: seq<Order>, n: nat)
    requires n <= |rates| && WithinY(rates, orders)
    ensures SumInputs(rates[..n]) <= SumY(orders[..n])
    ensures (forall k | 0 <= k < n :: rates[k].input == orders[k].Y) ==> SumInputs(rates[..n]) == SumY(orders[..n])
  {
    if n > 0 {
      SumWithinY(rates, orders, n - 1);
      assert rates[..n] == rates[..n - 1] + [rates[n - 1]];
      SumAppends(rates[..n - 1], rates[n - 1]);
      assert orders[..n][..n - 1] == orders[..n - 1];
    }
  }

  lemma WithinYReports(rates: seq<Rate>, orders: seq<Order>)
    requires WithinY(rates, orders)
    ensures ReportsExactly(RateByTarget, orders, rates)
  {
    hide TradeSourceAmount;
  }

  // ----- the level found by target

  /** What the scan and the bisection find by target: a level of orders that give no more than they have. It asks for
      less than the amount only if it is the last and asks for all there is, or if its orders have more than the
      amount. */
  lemma TargetLevel(ladder: seq<Order>, amount: nat)
    requires |ladder| > 1 && LimitsFit(ladder) && SumY(ladder) < TWO_255
    requires ladder[|ladder| - 1] == ZERO_ORDER && (forall o | o in ladder :: AsksAll(o))
    ensures var l := ScanLevel(ladder, 1, amount, RateByTarget, EqualTarget);
            && WithinY(l.rates, ladder)
            && (l.sign < 0 ==> SumY(ladder[..|l.rates|]) > amount || SumInputs(l.rates) == SumY(ladder) < amount)
            && (SumY(ladder) < amount ==> l.sign < 0)
            && (l.sign > 0 ==> SumY(ladder) > amount)
  {
    hide RateByTarget, EqualTarget, GetLimit, RatesAt, SumInputs, Reached, Crosses, ScanLevel, LimitsFit, SumY, AsksAll;
    ReachedFirst(ladder, amount, RateByTarget, EqualTarget);
    ScanFinds(ladder, 1, amount, RateByTarget, EqualTarget);
    var l := ScanLevel(ladder, 1, amount, RateByTarget, EqualTarget);
    var n: nat, limit: nat :| FoundAt(l, ladder, n, limit, amount, RateByTarget, EqualTarget);
    RatesAtTraded(ladder[..n], limit, RateByTarget, EqualTarget);
    TradedInFront(l.rates, ladder, n, RateByTarget);
    TradedWithinY(l.rates, ladder);
    TargetInputsBelowY(ladder[..n], limit);
    TargetInputsBelowY(ladder[..n], GetLimit(ladder[n]));
    SumYGrows(ladder, n);
    WordTotalIs(l.rates, TWO_255);
    WordTotalIs(LevelRates(ladder, n, RateByTarget, EqualTarget), TWO_255);
    if n + 1 == |ladder| {
      AllAtLimitZero(ladder[..n]);
      LastIsEmpty(ladder);
    }
  }

  lemma LastIsEmpty(ladder: seq<Order>)
    requires |ladder| > 1 && ladder[|ladder| - 1] == ZERO_ORDER
    ensures SumY(ladder) == SumY(ladder[..|ladder| - 1]) && GetLimit(ladder[|ladder| - 1]) == 0
  {
  }

  // ----- how much is placed

  /** The i-th order could take the whole of `left` on top of what it gives, and those before it give all they have. */
  predicate CouldTake(rates: seq<Rate>, orders: seq<Order>, i: nat, left: nat)
    requires |rates| <= |orders|
  {
    i < |rates| && (forall k | 0 <= k < i :: rates[k].input == orders[k].Y) && rates[i].input + left <= orders[i].Y
  }

  ghost predicate SomeCouldTake(rates: seq<Rate>, orders: seq<Order>, left: nat)
    requires |rates| <= |orders|
  {
    exists i: nat :: CouldTake(rates, orders, i, left)
  }

  /** An amount beyond the book gets the whole book. An amount within it is placed exactly if and only if the level
      found does not fall short; if it does, what is left out is something one order could take. */
  ghost predicate PlacedByTarget(level: Level, rates: seq<Rate>, ladder: seq<Order>, amount: nat)
    requires |rates| <= |ladder|
  {
    && (SumY(ladder) <= amount ==> SumInputs(rates) == SumY(ladder))
    && (SumY(ladder) >= amount ==> (SumInputs(rates) == amount <==> level.sign >= 0))
    && (SumY(ladder) >= amount > SumInputs(rates) ==> SomeCouldTake(rates, ladder, amount - SumInputs(rates)))
    && SumInputs(rates) <= amount
  }

  lemma ByTargetPlaces(ladder: seq<Order>, amount: nat)
    requires |ladder| > 1 && LimitsFit(ladder) && SumY(ladder) < TWO_255 && amount < TWO_255
    requires ladder[|ladder| - 1] == ZERO_ORDER && (forall o | o in ladder :: AsksAll(o))
    ensures PlacedByTarget(ScanLevel(ladder, 1, amount, RateByTarget, EqualTarget),
              BestRates(ladder, amount, RateByTarget, EqualTarget), ladder, amount)
  {
    hide TotalsFit, NeverOverReports, SumInputs, LimitsFit, ScanLevel, Trimmed, ToppedUp, Leaves, ReportsExactly,
      CutFromTheEnd, RateByTarget, EqualTarget, AsksAll, SumY, WithinY;
    TargetModeNeverOverReports(ladder);
    TargetModeTotalsFit(ladder, amount);
    TargetLevel(ladder, amount);
    var level := ScanLevel(ladder, 1, amount, RateByTarget, EqualTarget);
    var rates := BestRates(ladder, amount, RateByTarget, EqualTarget);
    WithinYReports(level.rates, ladder);
    BestPlaces(ladder, amount, RateByTarget, EqualTarget, TWO_255);
    if level.sign < 0 {
      ShortOfTarget(level.rates, rates, ladder, amount);
      LevelWithinBook(rates, ladder);
      SumYGrows(ladder, |rates|);
    } else {
      LevelWithinBook(level.rates, ladder);
    }
  }

  lemma LevelWithinBook(rates: seq<Rate>, ladder: seq<Order>)
    requires WithinY(rates, ladder)
    ensures SumInputs(rates) <= SumY(ladder)
  {
    SumWithinY(rates, ladder, |rates|);
    assert rates[..|rates|] == rates;
    SumYGrows(ladder, |rates|);
  }

  lemma FullOnceRefused(before: Rate, after: Rate, o: Order, left: nat)
    requires RefusesSome(before, after, o, left, RateByTarget)
    ensures after.input == o.Y
  {
    hide TradeSourceAmount;
  }

  lemma PassedOverCouldTake(input: nat, o: Order, left: nat)
    requires input <= o.Y && PassedOver(input, o, left, RateByTarget)
    ensures input + left <= o.Y
  {
    hide TradeSourceAmount;
  }

  /** Where topping up by target stops: every order before has given all it has. */
  lemma StopsFull(before: seq<Rate>, after: seq<Rate>, ladder: seq<Order>, stop: nat, left: nat)
    requires |before| == |after| && WithinY(before, ladder)
    requires StopsAt(before, after, ladder, 0, stop, left, RateByTarget)
    ensures WithinY(after, ladder) && stop <= |after| && forall k | 0 <= k < stop :: after[k].input == ladder[k].Y
    ensures stop < |after| ==> CouldTake(after, ladder, stop, left)
  {
    hide RateByTarget, RefusesSome, PassedOver;
    forall k | 0 <= k < stop
      ensures after[k].input == ladder[k].Y
    {
      FullOnceRefused(before[k], after[k], ladder[k], left);
    }
    if stop < |after| {
      PassedOverCouldTake(after[stop].input, ladder[stop], left);
    }
  }

  /** Topping up by target: if the orders of the level have more than the amount, one of them could take what is
      left. */
  lemma ShortOfTarget(before: seq<Rate>, after: seq<Rate>, ladder: seq<Order>, amount: nat)
    requires |before| == |after| && WithinY(before, ladder) && SumInputs(after) < amount
    requires Leaves(before, after, ladder, 0, amount - SumInputs(after), RateByTarget)
    ensures WithinY(after, ladder)
    ensures SumY(ladder[..|after|]) > amount ==> SomeCouldTake(after, ladder, amount - SumInputs(after))
  {
    assert |after| <= |ladder|;
    hide RateByTarget, StopsAt, SumInputs, SumY, WithinY, CouldTake;
    var left := amount - SumInputs(after);
    var stop: nat :| StopsAt(before, after, ladder, 0, stop, left, RateByTarget);
    StopsFull(before, after, ladder, stop, left);
    SumWithinY(after, ladder, |after|);
    assert after[..|after|] == after;
  }

  /** Matching by target amount: what is taken never exceeds what was asked for, and apart from rates that the
      filter drops it is what the best match places. */
  method MatchBestByTarget(amount: nat, orders: map<string, Order>, quotes: seq<Quote>)
    returns (actions: seq<MatchAction>)
    requires forall q | q in quotes :: q.id in orders
    requires LimitsFit(Ladder(orders, quotes)) && SumY(Ladder(orders, quotes)) < TWO_255 && amount < TWO_255
    ensures Spent(actions) <= amount
    ensures var ladder := Ladder(orders, quotes);
            var rates := BestRates(ladder, amount, RateByTarget, EqualTarget);
            && actions == Collect(rates, quotes, DefaultFilter)
            && Spent(actions) + Rejected(rates, DefaultFilter) == SumInputs(rates)
            && (quotes != [] && (forall o | o in ladder :: AsksAll(o)) ==>
                  PlacedByTarget(ScanLevel(ladder, 1, amount, RateByTarget, EqualTarget), rates, ladder, amount))
  {
    hide TotalsFit, NeverOverReports, SumInputs, LimitsFit, ScanLevel, BestRates, AsksAll, SumY, Reached, LevelRates,
      PlacedByTarget, RateByTarget, EqualTarget, Collect, DefaultFilter;
    ghost var ladder := Ladder(orders, quotes);
    TargetModeNeverOverReports(ladder);
    TargetModeTotalsFit(ladder, amount);
    if quotes != [] && forall o | o in ladder :: AsksAll(o) {
      ByTargetPlaces(ladder, amount);
    }
    CollectAccounts(BestRates(ladder, amount, RateByTarget, EqualTarget), quotes, DefaultFilter);
    actions := MatchBest(amount, orders, quotes, DefaultFilter, RateByTarget, EqualTarget, TWO_255);
  }

  // ----- a book that has the amount and does not give it

  /** Ten units at a price that falls as they are sold. */
  const TEN: Order := Order(10, 10, 2, 1)
  const BOOK: seq<Order> := [TEN, ZERO_ORDER]

  lemma TenTerms()
    ensures RateA(TEN) == 2 && RateB(TEN) == 1 && GetLimit(TEN) == 3 && GetLimit(ZERO_ORDER) == 0
    ensures EqualTarget(TEN, 0) == 15 && EqualTarget(TEN, 1) == 10 && EqualTarget(TEN, 2) == 5
  {
    assert Pow2(0) == 1;
    assert ExpandRate(2) == 2 && ExpandRate(1) == 1;
    assert Times(10, 2) == 20 && Times(10, 1) == 10 && Times(10, 0) == 0;
    hide ExpandRate, Times;
    DivIs(30, 10);
    DivIs(30, 2);
    DivIs(20, 2);
    DivIs(10, 2);
  }

  lemma TenAt(limit: nat, input: nat)
    requires RateByTarget(EqualTarget(TEN, limit), TEN).input == input <= 10
    ensures LevelAt(BOOK, 1, limit, 7, RateByTarget, EqualTarget) ==
            Level([RateByTarget(input, TEN)], if input > 7 then input - 7 else 7 - input,
              if input > 7 then 1 else if input < 7 then -1 else 0)
  {
    hide TradeSourceAmount, EqualTarget;
    var rate := RateByTarget(EqualTarget(TEN, limit), TEN);
    assert rate == RateByTarget(input, TEN);
    hide RateByTarget;
    assert BOOK[..1] == [TEN] && [TEN][..0] == [];
    assert RatesAt([TEN], limit, RateByTarget, EqualTarget) == [] + [rate] == [rate];
    assert SumInputs([rate]) == rate.input by { assert [rate][1..] == []; }
  }

  /** Seven of ten units are asked for and five are placed: the bisection ends below the amount, and the order is
      passed over because it could take the other two. */
  lemma ByTargetFallsShort()
    ensures LimitsFit(BOOK) && SumY(BOOK) == 10 && (forall o | o in BOOK :: AsksAll(o))
    ensures SumInputs(BestRates(BOOK, 7, RateByTarget, EqualTarget)) == 5
  {
    hide RateByTarget, EqualTarget, GetLimit, ScanLevel, LevelAt, Bisected;
    TenBook();
    TenLevel();
    var five := RateByTarget(5, TEN);
    assert ToppedUp([five], BOOK, 2, 0, RateByTarget) == [five] by { TenTakesTheRest(five); }
    assert SumInputs([five]) == 5 by {
      assert [five][1..] == [];
      TenGives(5);
    }
  }

  lemma TenGives(x: nat)
    requires x <= 10
    ensures RateByTarget(x, TEN).input == x
  {
    hide TradeSourceAmount;
  }

  lemma TenTakesTheRest(five: Rate)
    requires five == RateByTarget(5, TEN)
    ensures ToppedUp([five], BOOK, 2, 0, RateByTarget) == [five]
  {
    hide RateByTarget;
    TenGives(5);
    TenGives(7);
    ToppedUpStep([five], BOOK, 2, 0, RateByTarget);
  }

  lemma TenBook()
    ensures LimitsFit(BOOK) && SumY(BOOK) == 10 && forall o | o in BOOK :: AsksAll(o)
  {
    hide EqualTarget, GetLimit;
    TenTerms();
    assert BOOK[..1] == [TEN] && [TEN][..0] == [];
    assert SumY([TEN]) == 10;
  }

  lemma TenLevel()
    requires LimitsFit(BOOK)
    ensures ScanLevel(BOOK, 1, 7, RateByTarget, EqualTarget) == Level([RateByTarget(5, TEN)], 2, -1)
  {
    hide RateByTarget, EqualTarget, GetLimit, ScanLevel, LevelAt, Bisected, LimitsFit;
    TenTerms();
    ScanStep(BOOK, 1, 7, RateByTarget, EqualTarget);
    TenRates();
    TenAt(0, 10);
    TenAt(1, 10);
    TenAt(2, 5);
    var ten := RateByTarget(10, TEN);
    BisectedStep(BOOK, 1, 7, 0, 3, RateByTarget, EqualTarget, Level([ten], 3, 1));
    BisectedStep(BOOK, 1, 7, 1, 3, RateByTarget, EqualTarget, Level([ten], 3, 1));
    BisectedEnds(BOOK, 1, 7, 1, 2, RateByTarget, EqualTarget, Level([RateByTarget(5, TEN)], 2, -1));
  }

  lemma BisectedEnds(orders: seq<Order>, n: nat, amount: nat, lo: nat, hi: nat, trade: TradeFn,
      equalize: EqualizeFn, level: Level)
    requires n <= |orders| && lo < TWO_255 && hi < TWO_255 && Add(lo, 1) >= hi
    ensures Bisected(orders, n, amount, lo, hi, trade, equalize, level) == level
  {
  }

  lemma TenRates()
    ensures RateByTarget(15, TEN).input == 10 && RateByTarget(10, TEN).input == 10 && RateByTarget(5, TEN).input == 5
  {
    hide TradeSourceAmount;
  }
}
