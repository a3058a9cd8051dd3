/** A Carbon pool: strategies with one order per token. A quote matches the orders that sell the target
token; an update moves liquidity between the two orders of each matched strategy. */
module CarbonPool {
  import opened Arith
  import opened Words
  import opened CarbonTrade
  import opened CarbonMatch

  const PPM_RESOLUTION: nat := 1_000_000

  datatype Strategy = Strategy(id: string, order0: Order, order1: Order)

  function Target(s: Strategy, zeroToOne: bool): Order {
    if zeroToOne then s.order1 else s.order0
  }

  function Source(s: Strategy, zeroToOne: bool): Order {
    if zeroToOne then s.order0 else s.order1
  }

  datatype TradeAction = TradeAction(
    strategyIdx: int, zeroToOne: bool, sourceAmount: nat, targetAmount: nat,
    newTargetY: nat, newSourceY: nat, newSourceZ: nat)

  datatype TradeOutput = NoOutput | TradeOutput(amountOutAfterFee: nat, feeAmount: nat, tradeActions: seq<TradeAction>)

  // ----- the book of orders on the target side

  /** Index, by id, of the strategies among the first n whose target order has liquidity. */
  function BookOf(strategies: seq<Strategy>, zeroToOne: bool, n: nat): (book: map<string, int>)
    requires n <= |strategies|
    ensures forall id | id in book ::
              0 <= book[id] < n && strategies[book[id]].id == id && Sign(Target(strategies[book[id]], zeroToOne).Y) > 0
  {
    if n == 0 then map[]
    else
      var book := BookOf(strategies, zeroToOne, n - 1);
      if Sign(Target(strategies[n - 1], zeroToOne).Y) > 0 then book[strategies[n - 1].id := n - 1] else book
  }

  function OrdersOf(strategies: seq<Strategy>, zeroToOne: bool): map<string, Order> {
    var book := BookOf(strategies, zeroToOne, |strategies|);
    map id | id in book :: Target(strategies[book[id]], zeroToOne)
  }

  /** Every strategy whose target order has liquidity is in the book, under its own index if no other has its id. */
  lemma {:induction false} BookIsComplete(strategies: seq<Strategy>, zeroToOne: bool, n: nat, k: nat)
    requires k < n <= |strategies| && Sign(Target(strategies[k], zeroToOne).Y) > 0
    ensures strategies[k].id in BookOf(strategies, zeroToOne, n)
    ensures (forall j | 0 <= j < n && j != k :: strategies[j].id != strategies[k].id) ==>
              BookOf(strategies, zeroToOne, n)[strategies[k].id] == k
    decreases n
  {
    hide Target;
    if k < n - 1 {
      BookIsComplete(strategies, zeroToOne, n - 1, k);
    }
  }

  // ----- a quote

  /** What the quote plans for one matched order. */
  function Planned(s: Strategy, idx: int, zeroToOne: bool, input: nat, output: nat): TradeAction {
    var source := Source(s, zeroToOne);
    var newSourceY := Add(source.Y, input);
    TradeAction(idx, zeroToOne, input, output, Sub(Target(s, zeroToOne).Y, output), newSourceY,
                if newSourceY > source.Z then newSourceY else source.Z)
  }

  /** The plan fits the strategies it was made for: one action per strategy, none paying more than the order has. */
  ghost predicate PlanFits(strategies: seq<Strategy>, zeroToOne: bool, plan: seq<TradeAction>) {
    && (forall i, j | 0 <= i < j < |plan| :: plan[i].strategyIdx != plan[j].strategyIdx)
    && forall i | 0 <= i < |plan| ::
         && 0 <= plan[i].strategyIdx < |strategies|
         && ActionFits(strategies[plan[i].strategyIdx], zeroToOne, plan[i])
  }

  predicate ActionFits(s: Strategy, zeroToOne: bool, t: TradeAction) {
    && t.zeroToOne == zeroToOne
    && t.targetAmount <= Target(s, zeroToOne).Y
    && t.newTargetY == Target(s, zeroToOne).Y - t.targetAmount
    && t.newSourceY == Add(Source(s, zeroToOne).Y, t.sourceAmount)
    && t.newSourceZ == Max(Source(s, zeroToOne).Z, t.newSourceY)
  }

  function SumTargets(plan: seq<TradeAction>): nat {
    if plan == [] then 0 else SumTargets(plan[..|plan| - 1]) + plan[|plan| - 1].targetAmount
  }

  function SumSources(plan: seq<TradeAction>): nat {
    if plan == [] then 0 else SumSources(plan[..|plan| - 1]) + plan[|plan| - 1].sourceAmount
  }

  /** Liquidity of all target orders. */
  function Liquidity(strategies: seq<Strategy>, zeroToOne: bool): nat {
    if strategies == [] then 0
    else Liquidity(strategies[..|strategies| - 1], zeroToOne) + Target(strategies[|strategies| - 1], zeroToOne).Y
  }

  ghost predicate IsPool(strategies: seq<Strategy>, zeroToOne: bool) {
    && (forall s | s in strategies :: IsWord(s.order0.Y) && IsWord(s.order1.Y))
    && Liquidity(strategies, zeroToOne) < TWO_256
  }

  /** The actions a matcher may return for these strategies. */
  ghost predicate Matched(strategies: seq<Strategy>, zeroToOne: bool, actions: seq<MatchAction>) {
    var book := BookOf(strategies, zeroToOne, |strategies|);
    && DistinctActions(actions)
    && forall a | a in actions :: a.id in book && a.output <= Target(strategies[book[a.id]], zeroToOne).Y
  }

  // ----- an update

  function UpdatedStrategy(s: Strategy, t: TradeAction): Strategy {
    if t.zeroToOne
    then s.(order1 := s.order1.(Y := t.newTargetY), order0 := s.order0.(Y := t.newSourceY, Z := t.newSourceZ))
    else s.(order0 := s.order0.(Y := t.newTargetY), order1 := s.order1.(Y := t.newSourceY, Z := t.newSourceZ))
  }

  function Updated(strategies: seq<Strategy>, plan: seq<TradeAction>): (r: seq<Strategy>)
    ensures |r| == |strategies|
    decreases |plan|
  {
    if plan == [] then strategies
    else
      var before := Updated(strategies, plan[..|plan| - 1]);
      var t := plan[|plan| - 1];
      if 0 <= t.strategyIdx < |before| then before[t.strategyIdx := UpdatedStrategy(before[t.strategyIdx], t)]
        else before
  }

  /** Strategies a plan does not name are not touched; in particular a later action finds its own as it was. */
  lemma {:induction false} OthersUntouched(strategies: seq<Strategy>, plan: seq<TradeAction>, k: nat)
    requires k < |strategies| && forall i | 0 <= i < |plan| :: plan[i].strategyIdx != k
    ensures Updated(strategies, plan)[k] == strategies[k]
    decreases |plan|
  {
    if plan != [] {
      OthersUntouched(strategies, plan[..|plan| - 1], k);
    }
  }

  lemma {:induction false} LiquidityUpdates(strategies: seq<Strategy>, zeroToOne: bool, k: nat, s: Strategy)
    requires k < |strategies|
    ensures Liquidity(strategies[k := s], zeroToOne)
            == Liquidity(strategies, zeroToOne) - Target(strategies[k], zeroToOne).Y + Target(s, zeroToOne).Y
    decreases |strategies|
  {
    var last := |strategies| - 1;
    if k == last {
      assert strategies[k := s][..last] == strategies[..last];
    } else {
      assert strategies[k := s][..last] == strategies[..last][k := s];
      LiquidityUpdates(strategies[..last], zeroToOne, k, s);
    }
  }

  lemma PlanPrefixFits(strategies: seq<Strategy>, zeroToOne: bool, plan: seq<TradeAction>, n: nat)
    requires PlanFits(strategies, zeroToOne, plan) && n <= |plan|
    ensures PlanFits(strategies, zeroToOne, plan[..n])
  {
  }

  /** Applying a plan lowers the target side's liquidity by exactly what the plan pays out. */
  lemma {:induction false} LiquidityFalls(strategies: seq<Strategy>, zeroToOne: bool, plan: seq<TradeAction>)
    requires PlanFits(strategies, zeroToOne, plan)
    ensures SumTargets(plan) <= Liquidity(strategies, zeroToOne)
    ensures Liquidity(Updated(strategies, plan), zeroToOne) == Liquidity(strategies, zeroToOne) - SumTargets(plan)
    decreases |plan|
  {
    if plan != [] {
      var last := |plan| - 1;
      var t := plan[last];
      PlanPrefixFits(strategies, zeroToOne, plan, last);
      LiquidityFalls(strategies, zeroToOne, plan[..last]);
      OthersUntouched(strategies, plan[..last], t.strategyIdx);
      var before := Updated(strategies, plan[..last]);
      LiquidityUpdates(before, zeroToOne, t.strategyIdx, UpdatedStrategy(before[t.strategyIdx], t));
    }
  }

  /** No source order's liquidity wraps. */
  ghost predicate SourcesFit(strategies: seq<Strategy>, zeroToOne: bool, plan: seq<TradeAction>) {
    forall i | 0 <= i < |plan| && 0 <= plan[i].strategyIdx < |strategies| ::
      IsWord(Source(strategies[plan[i].strategyIdx], zeroToOne).Y + plan[i].sourceAmount)
  }

  /** Applying a plan raises the source side's liquidity, that of the orders selling the other token, by exactly what
      the plan takes in. */
  lemma {:induction false} SourcesRise(strategies: seq<Strategy>, zeroToOne: bool, plan: seq<TradeAction>)
    requires PlanFits(strategies, zeroToOne, plan) && SourcesFit(strategies, zeroToOne, plan)
    ensures Liquidity(Updated(strategies, plan), !zeroToOne) == Liquidity(strategies, !zeroToOne) + SumSources(plan)
    decreases |plan|
  {
    if plan != [] {
      var last := |plan| - 1;
      var t := plan[last];
      PlanPrefixFits(strategies, zeroToOne, plan, last);
      SourcesRise(strategies, zeroToOne, plan[..last]);
      OthersUntouched(strategies, plan[..last], t.strategyIdx);
      var before := Updated(strategies, plan[..last]);
      SourceCredited(before[t.strategyIdx], zeroToOne, t);
      hide Target, Source, ActionFits;
      LiquidityUpdates(before, !zeroToOne, t.strategyIdx, UpdatedStrategy(before[t.strategyIdx], t));
    }
  }

  lemma SourceCredited(s: Strategy, zeroToOne: bool, t: TradeAction)
    requires ActionFits(s, zeroToOne, t) && IsWord(Source(s, zeroToOne).Y + t.sourceAmount)
    ensures Target(UpdatedStrategy(s, t), !zeroToOne).Y == Target(s, !zeroToOne).Y + t.sourceAmount
  {
  }

  predicate WithinCapacity(s: Strategy) {
    s.order0.Y <= s.order0.Z && s.order1.Y <= s.order1.Z
  }

  ghost predicate AllWithinCapacity(strategies: seq<Strategy>) {
    forall i | 0 <= i < |strategies| :: WithinCapacity(strategies[i])
  }

  /** Applying a plan keeps every order's liquidity within its capacity. */
  lemma {:induction false} CapacityKept(strategies: seq<Strategy>, zeroToOne: bool, plan: seq<TradeAction>)
    requires PlanFits(strategies, zeroToOne, plan) && AllWithinCapacity(strategies)
    ensures AllWithinCapacity(Updated(strategies, plan))
    decreases |plan|
  {
    if plan != [] {
      var last := |plan| - 1;
      PlanPrefixFits(strategies, zeroToOne, plan, last);
      CapacityKept(strategies, zeroToOne, plan[..last]);
      OthersUntouched(strategies, plan[..last], plan[last].strategyIdx);
    }
  }

  // ----- runs

  /** One quote that was applied: its direction and its plan. */
  datatype Trade = Trade(zeroToOne: bool, plan: seq<TradeAction>)

  /** Each trade of the run was planned on the strategies left by the trades before it. */
  ghost predicate IsRun(strategies: seq<Strategy>, trades: seq<Trade>)
    decreases |trades|
  {
    trades == [] || (
      && PlanFits(strategies, trades[0].zeroToOne, trades[0].plan)
      && IsRun(Updated(strategies, trades[0].plan), trades[1..]))
  }

  function AfterRun(strategies: seq<Strategy>, trades: seq<Trade>): seq<Strategy>
    decreases |trades|
  {
    if trades == [] then strategies else AfterRun(Updated(strategies, trades[0].plan), trades[1..])
  }

  /** Over every run, every order stays within its capacity. */
  lemma {:induction false} RunKeepsCapacity(strategies: seq<Strategy>, trades: seq<Trade>)
    requires IsRun(strategies, trades) && AllWithinCapacity(strategies)
    ensures AllWithinCapacity(AfterRun(strategies, trades))
    decreases |trades|
  {
    if trades != [] {
      CapacityKept(strategies, trades[0].zeroToOne, trades[0].plan);
      RunKeepsCapacity(Updated(strategies, trades[0].plan), trades[1..]);
    }
  }

  // ----- fees

  function AfterFee(total: nat, feePpm: nat): nat {
    Mul(total, Sub(PPM_RESOLUTION, feePpm)) / PPM_RESOLUTION
  }

  /** The taker gets the share of the payout that is not the fee, rounded down, once the product is cut to a word; with
      the fee it adds up to what the orders pay. */
  lemma FeeSplits(total: nat, feePpm: nat)
    requires IsWord(total) && feePpm <= PPM_RESOLUTION
    ensures AfterFee(total, feePpm) == total * (PPM_RESOLUTION - feePpm) % TWO_256 / PPM_RESOLUTION
    ensures AfterFee(total, feePpm) <= total
    ensures AfterFee(total, feePpm) + Sub(total, AfterFee(total, feePpm)) == total
  {
    hide Mul;
    var k := PPM_RESOLUTION - feePpm;
    MulWraps(total, k);
    ShareAtMost(total, k, PPM_RESOLUTION, Mul(total, k));
  }

  lemma MulWraps(x: nat, y: nat)
    ensures Mul(x, y) == x * y % TWO_256 <= x * y
  {
    hide Times;
    TimesIs(x, y);
    NonNegative(x, y);
    WordBelow(x * y);
  }

  lemma ShareAtMost(total: nat, k: nat, d: nat, product: nat)
    requires k <= d && d > 0 && product <= total * k
    ensures 0 <= product / d <= total
  {
    DivNat(product, d);
    MulMono(k, d, total);
    FloorAtLeast(product, d, total + 1);
    assert d * (total + 1) == d * total + d;
  }

  lemma TakerGetsIs(total: nat, feePpm: nat)
    requires IsWord(total) && feePpm <= PPM_RESOLUTION
    ensures TakerGets(total, feePpm) == AfterFee(total, feePpm)
  {
    hide AfterFee;
    FeeSplits(total, feePpm);
  }

  // ----- from matched actions to a plan

  lemma EmptyPlanFits(strategies: seq<Strategy>, zeroToOne: bool)
    ensures PlanFits(strategies, zeroToOne, [])
  {
  }

  lemma EmptyPlanOf(actions: seq<MatchAction>, book: map<string, int>)
    ensures PlanOf([], actions, book, 0) && SumTargets([]) == 0
  {
  }

  lemma PlannedFits(strategies: seq<Strategy>, idx: int, zeroToOne: bool, input: nat, output: nat)
    requires 0 <= idx < |strategies| && output <= Target(strategies[idx], zeroToOne).Y && IsPool(strategies, zeroToOne)
    ensures ActionFits(strategies[idx], zeroToOne, Planned(strategies[idx], idx, zeroToOne, input, output))
  {
    hide Liquidity;
    assert strategies[idx] in strategies;
  }

  /** The plan so far: its k-th entry pays the k-th action at that action's strategy. */
  ghost predicate PlanOf(plan: seq<TradeAction>, actions: seq<MatchAction>, book: map<string, int>, k: nat) {
    && |plan| == k <= |actions|
    && forall i | 0 <= i < k ::
         && actions[i].id in book && plan[i].strategyIdx == book[actions[i].id]
         && plan[i].targetAmount == actions[i].output && plan[i].sourceAmount == actions[i].input
  }

  lemma PlanExtends(strategies: seq<Strategy>, zeroToOne: bool, actions: seq<MatchAction>, plan: seq<TradeAction>,
      k: nat, t: TradeAction)
    requires Matched(strategies, zeroToOne, actions) && IsPool(strategies, zeroToOne) && k < |actions|
    requires var book := BookOf(strategies, zeroToOne, |strategies|);
             && PlanOf(plan, actions, book, k) && actions[k].id in book
             && t == Planned(strategies[book[actions[k].id]], book[actions[k].id], zeroToOne, actions[k].input,
               actions[k].output)
    requires PlanFits(strategies, zeroToOne, plan)
    ensures PlanFits(strategies, zeroToOne, plan + [t])
    ensures PlanOf(plan + [t], actions, BookOf(strategies, zeroToOne, |strategies|), k + 1)
    ensures SumTargets(plan + [t]) == SumTargets(plan) + t.targetAmount
  {
    hide Liquidity, ActionFits, Planned, IsPool;
    var book := BookOf(strategies, zeroToOne, |strategies|);
    var idx := book[actions[k].id];
    assert actions[k] in actions;
    PlannedFits(strategies, idx, zeroToOne, actions[k].input, actions[k].output);
    PlannedNames(strategies[idx], idx, zeroToOne, actions[k].input, actions[k].output);
    forall i | 0 <= i < k
      ensures plan[i].strategyIdx != t.strategyIdx
    {
      assert strategies[book[actions[i].id]].id == actions[i].id;
      assert strategies[idx].id == actions[k].id;
    }
    assert (plan + [t])[..k] == plan;
  }

  lemma PlannedNames(s: Strategy, idx: int, zeroToOne: bool, input: nat, output: nat)
    ensures var t := Planned(s, idx, zeroToOne, input, output);
            t.strategyIdx == idx && t.targetAmount == output && t.sourceAmount == input
  {
  }

  /** What the taker gets of a payout: its share in parts per million, of the product cut to a word. */
  function TakerGets(total: nat, feePpm: nat): int
    requires feePpm <= PPM_RESOLUTION
  {
    total * (PPM_RESOLUTION - feePpm) % TWO_256 / PPM_RESOLUTION
  }

  /** The answer that these actions stand for: none when their payout, read as a two's complement number, is not
      positive; otherwise a plan with one entry for each of them, what the taker gets, and the fee. */
  ghost predicate IsOutputOf(strategies: seq<Strategy>, zeroToOne: bool, feePpm: nat, actions: seq<MatchAction>,
      out: TradeOutput)
    requires feePpm <= PPM_RESOLUTION
  {
    && (out.NoOutput? <==> Sign(SumOutputs(actions)) <= 0)
    && (out.TradeOutput? ==>
          && PlanFits(strategies, zeroToOne, out.tradeActions)
          && PlanOf(out.tradeActions, actions, BookOf(strategies, zeroToOne, |strategies|), |actions|)
          && out.amountOutAfterFee == TakerGets(SumOutputs(actions), feePpm)
          && out.amountOutAfterFee + out.feeAmount == SumTargets(out.tradeActions) == SumOutputs(actions)
          && SumSources(out.tradeActions) == Spent(actions))
  }

  /** What the equalising and the greedy matcher make of a source amount. */
  ghost function BestActions(strategies: seq<Strategy>, zeroToOne: bool, quotes: seq<Quote>, amountIn: nat):
    seq<MatchAction>
    requires forall q | q in quotes :: q.id in OrdersOf(strategies, zeroToOne)
    requires LimitsFit(Ladder(OrdersOf(strategies, zeroToOne), quotes))
  {
    Collect(BestRates(Ladder(OrdersOf(strategies, zeroToOne), quotes), amountIn, RateBySource, EqualSource), quotes,
      DefaultFilter)
  }

  function GreedyActions(strategies: seq<Strategy>, zeroToOne: bool, quotes: seq<Quote>, amountIn: nat):
    seq<MatchAction>
    requires forall q | q in quotes :: q.id in OrdersOf(strategies, zeroToOne)
  {
    FastActions(amountIn, OrdersOf(strategies, zeroToOne), quotes, DefaultFilter, RateBySource)
  }

  /** The equalising matcher's actions are taken unless they pay nothing or the greedy ones pay more after the fee. */
  predicate PrefersGreedy(best: nat, greedy: nat, feePpm: nat)
    requires feePpm <= PPM_RESOLUTION
  {
    Sign(best) <= 0 || (Sign(greedy) > 0 && TakerGets(greedy, feePpm) > TakerGets(best, feePpm))
  }

  function SumOutputs(actions: seq<MatchAction>): nat {
    if actions == [] then 0 else SumOutputs(actions[..|actions| - 1]) + actions[|actions| - 1].output
  }

  /** The plan pays and takes in exactly what the actions do. */
  lemma {:induction false} PlanSums(plan: seq<TradeAction>, actions: seq<MatchAction>, book: map<string, int>, k: nat)
    requires PlanOf(plan, actions, book, k)
    ensures SumTargets(plan) == SumOutputs(actions[..k]) && SumSources(plan) == Spent(actions[..k])
    decreases k
  {
    if k > 0 {
      PlanSums(plan[..k - 1], actions, book, k - 1);
      assert actions[..k][..k - 1] == actions[..k - 1];
      assert actions[..k] == actions[..k - 1] + [actions[k - 1]];
      SpentAppends(actions[..k - 1], actions[k - 1]);
    }
  }

  lemma MatchedAt(strategies: seq<Strategy>, zeroToOne: bool, actions: seq<MatchAction>, k: nat)
    requires Matched(strategies, zeroToOne, actions) && k < |actions|
    ensures var book := BookOf(strategies, zeroToOne, |strategies|);
            actions[k].id in book && 0 <= book[actions[k].id] < |strategies|
  {
    hide BookOf;
    assert actions[k] in actions;
  }

  lemma PayoutIsWord(strategies: seq<Strategy>, zeroToOne: bool, plan: seq<TradeAction>)
    requires PlanFits(strategies, zeroToOne, plan) && IsPool(strategies, zeroToOne)
    ensures IsWord(SumTargets(plan))
  {
    hide PlanFits, Liquidity, SumTargets;
    LiquidityFalls(strategies, zeroToOne, plan);
  }

  lemma BestIsMatched(strategies: seq<Strategy>, zeroToOne: bool, actions: seq<MatchAction>)
    requires DistinctActions(actions)
    requires var orders := OrdersOf(strategies, zeroToOne);
             forall a | a in actions :: a.id in orders && IsTrade(Rate(a.input, a.output), orders[a.id], RateBySource)
    ensures Matched(strategies, zeroToOne, actions)
  {
    hide BookOf, RateBySource;
    var orders := OrdersOf(strategies, zeroToOne);
    forall a | a in actions
      ensures a.output <= orders[a.id].Y
    {
      var x: nat :| RateBySource(x, orders[a.id]) == Rate(a.input, a.output);
      SourceRateWithinOrder(x, orders[a.id]);
    }
  }

  lemma FastIsMatched(strategies: seq<Strategy>, zeroToOne: bool, actions: seq<MatchAction>)
    requires DistinctActions(actions)
    requires ActionsTraded(actions, OrdersOf(strategies, zeroToOne), DefaultFilter, RateBySource)
    ensures Matched(strategies, zeroToOne, actions)
  {
    hide BookOf, RateBySource;
    var orders := OrdersOf(strategies, zeroToOne);
    forall a | a in actions
      ensures a.output <= orders[a.id].Y
    {
      SourceRateWithinOrder(a.input, orders[a.id]);
    }
  }

  /** A quote's answer: a plan that fits the pool, paid out as what the taker gets and the fee. */
  ghost predicate IsAnswer(strategies: seq<Strategy>, zeroToOne: bool, out: TradeOutput) {
    out.TradeOutput? ==>
      && PlanFits(strategies, zeroToOne, out.tradeActions)
      && out.amountOutAfterFee + out.feeAmount == SumTargets(out.tradeActions)
  }

  /** Every order of the ladder reports no more than it is offered, and neither the amount nor the total at any
      limit tried for it reaches `most`. */
  ghost predicate LevelsFit(ladder: seq<Order>, amountIn: nat, most: nat) {
    && amountIn < most && TotalsFit(ladder, RateBySource, EqualSource, amountIn, most)
    && forall o | o in ladder :: ReportsWithin(o, most)
  }

  lemma LevelsAreShort(ladder: seq<Order>, amountIn: nat, most: nat)
    requires LevelsFit(ladder, amountIn, most)
    ensures most <= TWO_255
  {
    hide ReportsWithin;
  }

  // ----- the simulator object

  class PoolSimulator {
    var strategies: seq<Strategy>
    const tradingFeePpm: nat

    constructor (strategies: seq<Strategy>, tradingFeePpm: nat)
      ensures this.strategies == strategies && this.tradingFeePpm == tradingFeePpm
    {
      this.strategies, this.tradingFeePpm := strategies, tradingFeePpm;
    }

    /** Turns matched actions into a plan; what the taker gets and the fee add up to the plan's payout. There is no
        output when the payout, read as a two's complement number, is not positive. */
    method ProcessMatchActions(actions: seq<MatchAction>, zeroToOne: bool) returns (out: TradeOutput)
      requires Matched(strategies, zeroToOne, actions) && IsPool(strategies, zeroToOne) &&
               tradingFeePpm <= PPM_RESOLUTION
      ensures IsOutputOf(strategies, zeroToOne, tradingFeePpm, actions, out)
    {
      hide Liquidity, BookOf, PlanFits, Target, Source, Planned, PlanOf, IsPool, Matched, Add, SumTargets, SumOutputs,
        SumSources, Spent, AfterFee, Sub, TakerGets;
      var book := BookOf(strategies, zeroToOne, |strategies|);
      var plan: seq<TradeAction> := [];
      var total := 0;
      EmptyPlanFits(strategies, zeroToOne);
      EmptyPlanOf(actions, book);
      for k := 0 to |actions|
        invariant PlanOf(plan, actions, book, k) && PlanFits(strategies, zeroToOne, plan)
        invariant total == SumTargets(plan)
      {
        var action := actions[k];
        MatchedAt(strategies, zeroToOne, actions, k);
        var idx := book[action.id];
        var t := Planned(strategies[idx], idx, zeroToOne, action.input, action.output);
        PlanExtends(strategies, zeroToOne, actions, plan, k, t);
        PlannedNames(strategies[idx], idx, zeroToOne, action.input, action.output);
        plan := plan + [t];
        PayoutIsWord(strategies, zeroToOne, plan);
        SumFits(total, action.output);
        total := Add(total, action.output);
      }
      PlanSums(plan, actions, book, |actions|);
      assert actions[..|actions|] == actions;
      if Sign(total) <= 0 {
        return NoOutput;
      }
      PayoutIsWord(strategies, zeroToOne, plan);
      var afterFee := AfterFee(total, tradingFeePpm);
      FeeSplits(total, tradingFeePpm);
      TakerGetsIs(total, tradingFeePpm);
      return TradeOutput(afterFee, Sub(total, afterFee), plan);
    }

    /** Writes a plan into the orders. */
    method UpdateBalance(plan: seq<TradeAction>)
      modifies this`strategies
      ensures strategies == Updated(old(strategies), plan)
    {
      for k := 0 to |plan|
        invariant strategies == Updated(old(strategies), plan[..k])
      {
        var info := plan[k];
        assert plan[..k + 1][..k] == plan[..k];
        if 0 <= info.strategyIdx < |strategies| {
          strategies := strategies[info.strategyIdx := UpdatedStrategy(strategies[info.strategyIdx], info)];
        }
      }
      assert plan[..|plan|] == plan;
    }

    /** Both matchers' answers to a source amount, each a plan that fits the pool. The greedy one takes in no more than
        was offered; the equalising one neither, where its orders report within what they are offered and the totals it
        tries stay below `most`.
        `quotes` is the order in which the matchers see the book. */
    method TradeBySource(amountIn: nat, zeroToOne: bool, quotes: seq<Quote>, ghost most: nat)
      returns (best: TradeOutput, fast: TradeOutput)
      requires IsPool(strategies, zeroToOne) && tradingFeePpm <= PPM_RESOLUTION
      requires DistinctQuotes(quotes) && forall q | q in quotes :: q.id in OrdersOf(strategies, zeroToOne)
      requires LimitsFit(Ladder(OrdersOf(strategies, zeroToOne), quotes))
      ensures IsAnswer(strategies, zeroToOne, best) && IsAnswer(strategies, zeroToOne, fast)
      ensures IsOutputOf(strategies, zeroToOne, tradingFeePpm,
                BestActions(strategies, zeroToOne, quotes, amountIn), best)
      ensures IsOutputOf(strategies, zeroToOne, tradingFeePpm,
                GreedyActions(strategies, zeroToOne, quotes, amountIn), fast)
      ensures fast.TradeOutput? ==> SumSources(fast.tradeActions) <= amountIn
      ensures best.TradeOutput? && LevelsFit(Ladder(OrdersOf(strategies, zeroToOne), quotes), amountIn, most) ==>
                SumSources(best.tradeActions) <= amountIn
    {
      hide PlanFits, BookOf, IsPool, OrdersOf, Matched, ReportsWithin, TotalsFit, NeverOverReports, SumOutputs,
        SumSources, SumTargets, PlanOf, TakerGets, Spent;
      var orders := OrdersOf(strategies, zeroToOne);
      var bestActions := MatchBest(amountIn, orders, quotes, DefaultFilter, RateBySource, EqualSource, most);
      ghost var ladder := Ladder(orders, quotes);
      if LevelsFit(ladder, amountIn, most) {
        LevelsAreShort(ladder, amountIn, most);
        SourceModeNeverOverReports(ladder, most);
      }
      BestIsMatched(strategies, zeroToOne, bestActions);
      var fastActions := MatchFast(amountIn, orders, quotes, DefaultFilter, RateBySource);
      FastIsDistinct(amountIn, orders, quotes, DefaultFilter, RateBySource);
      FastIsMatched(strategies, zeroToOne, fastActions);
      best := ProcessMatchActions(bestActions, zeroToOne);
      fast := ProcessMatchActions(fastActions, zeroToOne);
    }

    /** The better answer, with no output for nothing offered or nothing to match. */
    method CalcAmountOut(amountIn: nat, zeroToOne: bool, quotes: seq<Quote>, ghost most: nat) returns (out: TradeOutput)
      requires IsPool(strategies, zeroToOne) && tradingFeePpm <= PPM_RESOLUTION
      requires DistinctQuotes(quotes) && forall q | q in quotes :: q.id in OrdersOf(strategies, zeroToOne)
      requires LimitsFit(Ladder(OrdersOf(strategies, zeroToOne), quotes))
      ensures IsAnswer(strategies, zeroToOne, out)
      ensures out.TradeOutput? && LevelsFit(Ladder(OrdersOf(strategies, zeroToOne), quotes), amountIn, most) ==>
                SumSources(out.tradeActions) <= amountIn
      ensures amountIn == 0 || strategies == [] || quotes == [] ==> out.NoOutput?
      ensures amountIn > 0 && strategies != [] && quotes != [] ==>
                var best := BestActions(strategies, zeroToOne, quotes, amountIn);
                var greedy := GreedyActions(strategies, zeroToOne, quotes, amountIn);
                IsOutputOf(strategies, zeroToOne, tradingFeePpm,
                  if PrefersGreedy(SumOutputs(best), SumOutputs(greedy), tradingFeePpm) then greedy else best, out)
    {
      hide PlanFits, BookOf, IsPool, OrdersOf, LevelsFit, SumSources, SumTargets, PlanOf, TakerGets, SumOutputs, Spent,
        BestActions, GreedyActions;
      if amountIn == 0 || strategies == [] || quotes == [] {
        return NoOutput;
      }
      var best, fast := TradeBySource(amountIn, zeroToOne, quotes, most);
      if best.NoOutput? {
        return fast;
      }
      if fast.TradeOutput? && fast.amountOutAfterFee > best.amountOutAfterFee {
        return fast;
      }
      return best;
    }
  }
}
