/** What Carbon's sentinel does to the equalising matcher: an order that cannot be brought to a limit answers with
the greatest word, which counts as minus one in the level's total and is dropped afterwards. */
module CarbonSentinel {
  import opened Arith
  import opened Bits
  import opened Words
  import opened CarbonTrade
  import opened CarbonStored
  import opened CarbonMatch

  function Sentinels(rates: seq<Rate>): nat {
    if rates == [] then 0
    else Sentinels(rates[..|rates| - 1]) + if rates[|rates| - 1].input == U_MAX then 1 else 0
  }

  /** Every rate passes the filter, asks for nothing, or is the sentinel. */
  predicate PassesOrSentinel(rates: seq<Rate>, filter: Rate -> bool) {
    forall i | 0 <= i < |rates| ::
      filter(rates[i]) || rates[i].input == 0 || rates[i].input == U_MAX
  }

  lemma CollectLast(rest: seq<Rate>, r: Rate, quotes: seq<Quote>, filter: Rate -> bool)
    requires |rest| < |quotes|
    ensures Spent(Collect(rest + [r], quotes, filter)) ==
            Spent(Collect(rest, quotes, filter)) + if filter(r) then r.input else 0
    ensures Sentinels(rest + [r]) == Sentinels(rest) + if r.input == U_MAX then 1 else 0
  {
    hide Spent;
    assert (rest + [r])[..|rest|] == rest;
    SpentAppends(Collect(rest, quotes, filter), MatchAction(quotes[|rest|].id, r.input, r.output));
  }

  lemma {:induction false} SentinelSum(rates: seq<Rate>, quotes: seq<Quote>)
    requires |rates| <= |quotes| && PassesOrSentinel(rates, DefaultFilter)
    ensures var spent := Spent(Collect(rates, quotes, DefaultFilter));
            (SumInputs(rates) + Sentinels(rates)) % TWO_256 == spent % TWO_256 && Sentinels(rates) <= |rates|
    decreases |rates|
  {
    if rates == [] {
    } else {
      var last := |rates| - 1;
      var rest, r := rates[..last], rates[last];
      hide Collect, Spent, Sentinels, SumInputs;
      SentinelSum(rest, quotes);
      assert rates == rest + [r];
      SumAppends(rest, r);
      CollectLast(rest, r, quotes, DefaultFilter);
      AddedMod(SumInputs(rest) + Sentinels(rest), Spent(Collect(rest, quotes, DefaultFilter)), r.input);
    }
  }

  /** Adding the same to both sides, or the sentinel and one to the first. */
  lemma AddedMod(x: nat, y: nat, input: nat)
    requires x % TWO_256 == y % TWO_256
    ensures (x + input) % TWO_256 == (y + input) % TWO_256
    ensures (x + U_MAX + 1) % TWO_256 == y % TWO_256
  {
  }

  lemma MinusOne(sum: nat, spent: nat, k: nat, amount: nat)
    requires IsWord(spent) && IsWord(amount + k) && sum % TWO_256 == amount
    requires (sum + k) % TWO_256 == spent % TWO_256
    ensures spent == amount + k
  {
  }

  /** A level that hits the amount exactly is taken as it is and spends one more for each sentinel in it: it keeps to
      the amount exactly when there is none. */
  lemma {:induction false} ExactHitSpends(rates: seq<Rate>, quotes: seq<Quote>, amount: nat)
    requires |rates| <= |quotes| && PassesOrSentinel(rates, DefaultFilter) && WordTotal(rates) == amount
    requires IsWord(Spent(Collect(rates, quotes, DefaultFilter))) && IsWord(amount + |rates|)
    ensures Spent(Collect(rates, quotes, DefaultFilter)) == amount + Sentinels(rates)
    ensures Spent(Collect(rates, quotes, DefaultFilter)) <= amount
       <==> forall i | 0 <= i < |rates| :: rates[i].input != U_MAX
  {
    hide Collect, Spent, Sentinels, SumInputs, PassesOrSentinel;
    SentinelSum(rates, quotes);
    MinusOne(SumInputs(rates), Spent(Collect(rates, quotes, DefaultFilter)), Sentinels(rates), amount);
    NoSentinel(rates);
  }

  lemma {:induction false} NoSentinel(rates: seq<Rate>)
    ensures Sentinels(rates) == 0 <==> forall i | 0 <= i < |rates| :: rates[i].input != U_MAX
  {
    if rates != [] {
      var rest := rates[..|rates| - 1];
      NoSentinel(rest);
      assert forall i | 0 <= i < |rest| :: rest[i] == rates[i];
    }
  }

  // ----- one unit offered, two taken in

  const TWO_47: nat := 0x8000_0000_0000

  /** Two orders of one unit each; the second has a zero lower price. */
  const SLOPED: Order := Order(1, 1, TWO_47, TWO_47 + 1)
  const OPEN_ENDED: Order := Order(1, 1, TWO_47 + 2, 0)
  const ORDERS: map<string, Order> := map["a" := SLOPED, "b" := OPEN_ENDED]
  const QUOTES: seq<Quote> := [Quote("a", Rate(1, 0)), Quote("b", Rate(1, 0))]

  lemma SmallRate(rate: nat)
    requires rate < ONE
    ensures ExpandRate(rate) == rate
  {
    assert Pow2(0) == 1;
  }

  lemma SlopedTerms()
    ensures RateA(SLOPED) == TWO_47 && RateB(SLOPED) == TWO_47 + 1
    ensures Tee(SLOPED) == ONE + 1 && Zed(SLOPED) == ONE && ParamsFit(SLOPED)
    ensures Times(2, TWO_47) == ONE && Times(1, TWO_47) == TWO_47
  {
    hide ExpandRate, Times;
    SmallRate(TWO_47);
    SmallRate(TWO_47 + 1);
    TimesIs(TWO_47, 1);
    TimesIs(TWO_47 + 1, 1);
    TimesIs(2, TWO_47);
    TimesIs(1, TWO_47);
  }

  lemma OpenEndedTerms()
    ensures RateA(OPEN_ENDED) == TWO_47 + 2 && RateB(OPEN_ENDED) == 0 && Tee(OPEN_ENDED) == TWO_47 + 2
    ensures ParamsFit(OPEN_ENDED) && Times(1, TWO_47 + 2) == TWO_47 + 2
  {
    hide ExpandRate, Times;
    SmallRate(TWO_47 + 2);
    SmallRate(0);
    TimesIs(TWO_47 + 2, 1);
    TimesIs(0, 1);
    TimesIs(1, TWO_47 + 2);
  }

  /** What two units and one unit of the sloped order cost. */
  lemma SlopedCosts()
    ensures PlainSource(2, ONE, ONE + 1, 1) == 2 * ONE - 1 && PlainSource(1, ONE, ONE + 1, TWO_47 + 1) == 2
  {
    hide Times, CeilDiv;
    TimesIs(ONE, ONE);
    TimesIs(2, ONE * ONE);
    TimesIs(1, ONE * ONE);
    TimesIs(ONE + 1, 1);
    TimesIs(ONE + 1, TWO_47 + 1);
    CeilAtMost(2 * (ONE * ONE), ONE + 1, 2 * ONE - 1);
    CeilAtMost(2 * (ONE * ONE), ONE + 1, 2 * ONE - 2);
    CeilAtMost(ONE * ONE, (ONE + 1) * (TWO_47 + 1), 2);
    CeilAtMost(ONE * ONE, (ONE + 1) * (TWO_47 + 1), 1);
  }

  lemma SlopedIsPlain(x: nat)
    requires x < 2 * ONE
    ensures PlainForTarget(SLOPED, 1) && PlainForTarget(SLOPED, 2) && PlainForSource(SLOPED, x)
  {
    hide Times, ExpandRate, Zed, Tee, RateA, RateB;
    SlopedTerms();
    TimesIs(ONE, ONE);
    TimesIs(ONE + 1, 1);
    TimesIs(ONE + 1, TWO_47 + 1);
    TimesIs(ONE + 1, x);
    TimesIs((ONE + 1) * x, TWO_47);
    PlainSize(x);
  }

  lemma PlainSize(x: nat)
    requires x < 2 * ONE
    ensures 0 <= (ONE + 1) * x < TWO_128 && 0 <= (ONE + 1) * x * TWO_47 < TWO_128 * ONE
  {
  }

  /** At limit zero the sloped order asks for two units, more than it has, and is quoted the cost of its one unit. */
  lemma SlopedRate()
    ensures RateBySource(EqualSource(SLOPED, 0), SLOPED) == Rate(2, 1)
  {
    hide TradeTargetAmount, TradeSourceAmount, PlainForTarget, PlainForSource, ExpandRate, Times, PlainSource, Zed, Tee,
      RateA, RateB, ParamsFit, Affordable;
    SlopedTerms();
    SlopedCosts();
    SlopedLevel();
    SlopedIsPlain(2 * ONE - 1);
    SlopedIsPlain(2);
    TradeSourceIsPlain(2, SLOPED);
    TradeSourceIsPlain(1, SLOPED);
    LeastInput(2 * ONE - 1, 2, SLOPED);
    LeastInput(2, 2, SLOPED);
    LeastInput(2, 1, SLOPED);
    AffordableStays(2, SLOPED);
  }

  lemma AffordableStays(input: nat, o: Order)
    requires TradeTargetAmount(input, o) <= o.Y
    ensures Affordable(input, o) == input
  {
    hide TradeTargetAmount;
  }

  lemma SlopedLevel()
    ensures EqualTarget(SLOPED, 0) == 2 && EqualTarget(SLOPED, TWO_47 + 2) == 0
  {
    hide Div, Times, RateA, RateB, ExpandRate;
    SlopedTerms();
    TimesIs(1, TWO_47);
    TimesIs(1, TWO_47 + 1);
    TimesIs(1, 0);
    TimesIs(1, TWO_47 + 2);
    DivIs(ONE + 1, TWO_47);
    DivIs(TWO_47 - 1, TWO_47);
  }

  /** At limit zero the open-ended order cannot be brought there, and answers with the sentinel. */
  lemma OpenEndedRate()
    ensures RateBySource(EqualSource(OPEN_ENDED, 0), OPEN_ENDED) == Rate(U_MAX, 0)
  {
    hide TradeTargetAmount, EqualTarget, SourceOf, Add, Mul, ExpandRate, ParamsFit, Tee;
    OpenEndedLevel();
    OpenEndedTerms();
    TeeOfWords(OPEN_ENDED);
    ProductFits(1, TWO_47 + 2, TWO_47 + 2);
    NothingForNothing(U_MAX, OPEN_ENDED);
  }

  lemma OpenEndedLevel()
    ensures GetLimit(OPEN_ENDED) == TWO_47 + 2 && EqualTarget(OPEN_ENDED, 0) == 1
  {
    hide Div, Add, Mul, ExpandRate, ParamsFit, Tee, RateA, RateB;
    OpenEndedTerms();
    TeeOfWords(OPEN_ENDED);
    ProductFits(1, 0, 0);
    DivIs(TWO_47 + 2, 1);
    DivIs(TWO_47 + 2, TWO_47 + 2);
  }

  lemma SampleLadder()
    ensures (forall q | q in QUOTES :: q.id in ORDERS)
    ensures Ladder(ORDERS, QUOTES) == [SLOPED, OPEN_ENDED, ZERO_ORDER]
    ensures GetLimit(ZERO_ORDER) == 0 && DistinctQuotes(QUOTES)
  {
    assert forall q | q in QUOTES :: q.id == "a" || q.id == "b";
  }

  lemma OneRate(o: Order, limit: nat)
    ensures RatesAt([o], limit, RateBySource, EqualSource) == [RateBySource(EqualSource(o, limit), o)]
  {
    hide RateBySource, EqualSource;
    assert [o][..0] == [];
  }

  lemma TwoRates(o: Order, p: Order, limit: nat)
    ensures RatesAt([o, p], limit, RateBySource, EqualSource) ==
            [RateBySource(EqualSource(o, limit), o), RateBySource(EqualSource(p, limit), p)]
  {
    hide RateBySource, EqualSource;
    OneRate(o, limit);
    assert [o, p][..1] == [o];
  }

  /** The first level asks for nothing. */
  lemma FirstLevel(ladder: seq<Order>)
    requires ladder == [SLOPED, OPEN_ENDED, ZERO_ORDER]
    ensures LevelRates(ladder, 1, RateBySource, EqualSource) == [Rate(0, 0)]
  {
    hide EqualTarget, TradeTargetAmount, TradeSourceAmount, GetLimit, RatesAt;
    assert ladder[..1] == [SLOPED];
    OpenEndedLevel();
    SlopedLevel();
    SmallTarget(0, SLOPED);
    NothingForNothing(0, SLOPED);
    OneRate(SLOPED, TWO_47 + 2);
  }

  /** The second, at limit zero, asks for two units and the sentinel: in words, for one. */
  lemma SecondLevel(ladder: seq<Order>)
    requires ladder == [SLOPED, OPEN_ENDED, ZERO_ORDER]
    ensures LevelRates(ladder, 2, RateBySource, EqualSource) == [Rate(2, 1), Rate(U_MAX, 0)]
  {
    hide RateBySource, EqualSource, RatesAt;
    assert ladder[..2] == [SLOPED, OPEN_ENDED];
    SampleLadder();
    SlopedRate();
    OpenEndedRate();
    TwoRates(SLOPED, OPEN_ENDED, 0);
  }

  lemma SampleTotals()
    ensures WordTotal([Rate(0, 0)]) == 0 && WordTotal([Rate(2, 1), Rate(U_MAX, 0)]) == 1
  {
    SumAppends([], Rate(0, 0));
    SumAppends([], Rate(2, 1));
    SumAppends([Rate(2, 1)], Rate(U_MAX, 0));
    assert [] + [Rate(0, 0)] == [Rate(0, 0)] && [] + [Rate(2, 1)] == [Rate(2, 1)];
    assert [Rate(2, 1)] + [Rate(U_MAX, 0)] == [Rate(2, 1), Rate(U_MAX, 0)];
  }

  lemma SampleActions()
    ensures Collect([Rate(2, 1), Rate(U_MAX, 0)], QUOTES, DefaultFilter) == [MatchAction("a", 2, 1)]
    ensures Spent([MatchAction("a", 2, 1)]) == 2
  {
    var rates := [Rate(2, 1), Rate(U_MAX, 0)];
    assert rates[..1] == [Rate(2, 1)] && rates[..1][..0] == [];
    assert Collect(rates[..1], QUOTES, DefaultFilter) == [] + [MatchAction("a", 2, 1)];
    assert Collect(rates, QUOTES, DefaultFilter) == Collect(rates[..1], QUOTES, DefaultFilter);
    assert [MatchAction("a", 2, 1)][1..] == [];
  }

  /** Offered one unit, the equalising matcher takes in two: the second level hits the amount because its sentinel
      counts as minus one. */
  method ExactHitOverspends() returns (actions: seq<MatchAction>)
    ensures Spent(actions) == 2
  {
    hide RateBySource, EqualSource, RatesAt, GetLimit, Ladder, LevelRates, WordTotal, Collect, Spent, IsTrade,
      DistinctActions, DistinctQuotes;
    SampleLadder();
    ghost var ladder := Ladder(ORDERS, QUOTES);
    FirstLevel(ladder);
    SecondLevel(ladder);
    SampleTotals();
    SampleActions();
    SampleLimits();
    actions := MatchBest(1, ORDERS, QUOTES, DefaultFilter, RateBySource, EqualSource, 0);
    assert Reached(ladder, 2, 1, RateBySource, EqualSource);
    assert LevelTotal(ladder, 2, RateBySource, EqualSource) == 1;
    assert actions == Collect(LevelRates(ladder, 2, RateBySource, EqualSource), QUOTES, DefaultFilter);
  }

  lemma SampleLimits()
    ensures LimitsFit([SLOPED, OPEN_ENDED, ZERO_ORDER])
  {
    hide GetLimit, RateA, RateB, Tee, Zed, ParamsFit, Times;
    SlopedTerms();
    OpenEndedTerms();
    StoredLimitFits(SLOPED);
    StoredLimitFits(OPEN_ENDED);
    assert GetLimit(ZERO_ORDER) == 0 by { SampleLadder(); }
  }
}
