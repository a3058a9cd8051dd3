# Models of the swap simulators

The repository prices swaps on many on-chain exchanges by re-running each exchange's arithmetic off chain. This
project models the simulators that hold real algorithms and proves, for all inputs or over whole runs, what their
callers rely on. `dafny verify dfyconfig.toml` checks every file.

**Ambient.** `AmbientTicks`, `AmbientChainView` model the three-level tick bitmap and its search by word truncation;
`AmbientSnapshot` the cached sorted list with its boundary flag; `AmbientLoader` the window loader;
`AmbientCurve`, `AmbientSweep`, `AmbientSwap` the sweep that pins, swaps to a limit, seeks, crosses and shaves.
`AmbientPays` says in plain arithmetic what a leg pays on either side, where it stops and what it takes as fees, and
`AmbientLegs` carries that to the leg as booked and to a whole sweep over an empty book. The two searches are proved
against one linear scan over the active ticks, the sweep is proved over every run and for both directions, with the
quantity fixed on either side, and `AmbientRefinement` shows that an unflagged sweep over the cached list passes
through exactly the states of the sweep over storage. `AmbientBeyond` and `AmbientTradable` add when a flagged quote
may be trusted. `AmbientTickMath` is the tick's price as the contract computes it, `AmbientFlagged` holds concrete
wrong quotes at those prices, and `AmbientLimits` shows why the limit price must lie inside the price range.

**Carbon.** `CarbonMath` (512-bit product from halves, least scaling factor), `CarbonTrade` (the two curve formulas in
word arithmetic against the exact rational curve), `CarbonBounds` (how close they come to it from the other side),
`CarbonStored` (the same for orders within the sizes the contract stores), `CarbonMatch` (greedy and equalising
matchers), `CarbonPlaced`, `CarbonByTarget` (how much of the amount the equalising matcher places), `CarbonSentinel`
(what the sentinel does to them), `CarbonPool` (plans, fees and order balances over runs).

**Bonding curves and fee solvers.** `AltFun` over `BounceTech` (floored constant product, balance cap, refunds,
graduation) with `AltFunPays` (what its quotes pay, in plain arithmetic), `ArenaMath`, `ArenaBc`, `ArenaSolvency`,
`ArenaPays`, `ArenaPool` (cubic integrals, purchase search, solvency over runs, what a trade pays, the pool object),
`DeltaSwap` (the fee that must be its own consequence) with `DeltaSwapFee` (which fee that is).

**Bancor.** `BancorPath` (the v2.1 path merge that compacts the array it scans), `BancorMath` (the v3 full-precision
multiply-divide through a modular inverse), `BancorV3` (the trade with its nested network-fee trade).

`Arith`, `Words` and `Bits` hold the shared arithmetic: naturals with explicit wrap-around at 2^256, the two's
complement sign of a word, and bit words as naturals. Products and quotients of words are written by doubling and by
long division (`Words.Times`, `Words.LongDiv`) and proved equal to `*` and `/`, which keeps word formulas cheap to
reason about. State that the source updates in place is a class whose methods are proved against a function on values;
the theorems are then about that function.

## What the proofs found

Where a property fails for the code as written, the model keeps the code and states when it holds.

- A seek downward from the lower infinite tick wraps to the top of the tick range (`AmbientChainView.SeekWrapsAtLowerInfinity`);
  it still gives the plain scan's answer if and only if no tick above that one is active. On every other 256-aligned
  border a seek is the plain scan (`AmbientChainView.SeekMeetsBorderIff`).
- A quote from the cached list that is flagged but still accepted can miss a tick that storage would cross
  (`AmbientFlagged.FlagMayHideACrossing`). Unflagged quotes never do, and with nothing active past the window's end no
  quote does. Conversely, in a pool without fees, once some quantity brings the window's sweep past its listed ticks and
  the next active tick can be reached inside the limit price with input left to trade beyond it (`Tradable`), accepted
  quotes agree for every quantity only then (`AmbientBeyond.AcceptedAgreesIff`).
- A sweep with its limit price inside the price range ends within one iteration more than there are active ticks ahead;
  with the limit at the top of the range a buy for a fixed output need not end (`AmbientLimits.OutputBeyondNeverEnds`).
- Carbon's inverted target formula, used when the summed denominator overflows, can pay more than the curve when it
  does not fit a word itself (`CarbonTrade.UnfitInvertedOverpays`, exact condition in `CarbonTrade.TargetRoundsDownIff`).
  That example has a rate exponent of 81 and a capacity of 2^207, which the 128-bit field decoded in
  pkg/liquidity-source/carbon/pool_tracker.go:332-339 cannot hold.
- Carbon's source formula rounds up only while its cost fits a word; a larger cost is cut to its low word. All but one
  unit of an order with liquidity and capacity below 2^128 and a zero lower price are sold for a single unit
  (`CarbonTrade.SteepOrderUndercharges`, exact condition in `CarbonTrade.SourceRoundsUpIff`), and a constant-price order
  sells 2^160 units for nothing (`CarbonTrade.FlatOrderGivesAway`, exact condition in `CarbonTrade.FlatSourceRoundsUpIff`).
  That is beyond the 128-bit fields too: amounts below 2^128 of a constant-price order are rounded up unless the square of
  its price wraps to zero (`CarbonStored.FlatFieldRoundsUp`).
- For sloped orders within the contract's sizes and with a positive lower price neither happens: both formulas round in
  the pool's favour (`CarbonStored.StoredTargetRoundsDown`, where T times the amount fits a word, and
  `CarbonStored.StoredSourceRoundsUp`).
- Carbon's equalising plan can take in more than was offered: at limit zero an order with a zero lower price answers with
  the sentinel, which counts as minus one in the total. Offered one unit, a book of two orders takes in two
  (`CarbonSentinel.ExactHitOverspends`); a level that hits the amount exactly keeps to it if and only if no order in it
  answers with the sentinel (`CarbonSentinel.ExactHitSpends`).
- Carbon's equalising matcher never places the whole amount when its last level falls short of it: the pass that offers
  the rest passes over an order that takes all of it. By target amount, seven of ten units asked of a book of one order
  come out as five (`CarbonByTarget.ByTargetFallsShort`). An amount within the book is placed exactly if and only if the
  level found does not ask for less (`CarbonByTarget.ByTargetPlaces`), and what is left out is then something one order
  could take. A level that asks for more is cut to exactly the amount (`CarbonPlaced.TrimmedIsExact`).
- Selling nothing into an Alt-Fun pool whose token reserve is empty is quoted the whole asset reserve and leaves the
  curve (`AltFun.ZeroSellDrains`, exact condition in `AltFun.SellKeepsCurveIff`).
- Arena's solvency is lost when a sell of a fraction of a token is followed by a buy up to the sale limit
  (`ArenaSolvency.FractionalSellThenBuyOutBreaks`). An accepted buy keeps it if and only if it does not buy out the
  maximum across a token boundary, or balance and price paid cover the token completed there
  (`ArenaSolvency.BuyKeepsSolventIff`), and a run stays solvent throughout if and only if all its buys do
  (`ArenaSolvency.RunStaysHealthyIff`).

## Model

| member | source | states |
|---|---|---|
| `AmbientTicks.WeldUndoesSplit` | pkg/liquidity-source/ambient/bitmaps.go:11-39 | welding the lobby, mezzanine and terminus parts of any tick gives the tick back |
| `AmbientTicks.SplitUndoesWeld` | pkg/liquidity-source/ambient/slots.go:64-67 | splitting a welded tick gives its three coordinates back, so the two are inverse |
| `AmbientTicks.FirstBitAtOrAbove` | pkg/liquidity-source/ambient/bitmaps.go:46-74 | truncating and taking the lowest bit finds the least set bit at or above the shift, or reports that there is none |
| `AmbientTicks.LastBitBelow` | pkg/liquidity-source/ambient/bitmaps.go:46-74 | truncating to the left and taking the highest bit finds the greatest set bit below 256 - shift, or reports none |
| `AmbientChainView.PinFindsNearest` | pkg/liquidity-source/ambient/bitmap_view.go:47-78 | a pin is the nearest active tick ahead in the start's word; it spills exactly when there is none, and then is the word's border |
| `AmbientChainView.SeekOverLobby` | pkg/liquidity-source/ambient/bitmap_view.go:123-138 | the loop over lobbies computes the walk for any storage, and on consistent storage returns what a linear scan from the next lobby returns |
| `AmbientChainView.SeekMezzSpill` | pkg/liquidity-source/ambient/bitmap_view.go:87-152 | the three stages compute the walk for any storage, and on consistent storage answer what the linear scan answers, for every border |
| `AmbientChainView.SeekMeetsBorderIff` | pkg/liquidity-source/ambient/bitmap_view.go:140-148 | a seek is the scan from the border itself if and only if no active tick lies behind the border in its word, in particular for every 256-aligned border |
| `AmbientChainView.SeekWrapsAtLowerInfinity` | pkg/liquidity-source/ambient/bitmap_view.go:140-148 | at the lower infinite tick the key split wraps and a sell scans from the top; it answers that tick, as the plain scan does, if and only if no tick above it is active |
| `AmbientChainWalk.ChainWalks` | pkg/liquidity-source/ambient/bitmap_view.go:47-166 | on consistent storage the pins and the three-level walk visit exactly the active ticks, nearest first |
| `AmbientSnapshot.SortSearch` | pkg/liquidity-source/ambient/snapshot_bitmap_view.go:40-83 | the bisection both queries use returns the least index at which a monotone test holds |
| `AmbientSnapshot.SnapshotBitmapView.constructor` | pkg/liquidity-source/ambient/snapshot_bitmap_view.go:17-36 | an unset window becomes the whole tick range |
| `AmbientSnapshot.SnapshotBitmapView.PinBitmap` | pkg/liquidity-source/ambient/snapshot_bitmap_view.go:40-65 | pin, spill and flag of the list view as a function of its list; the flag is only ever raised |
| `AmbientSnapshot.SnapshotBitmapView.SeekMezzSpill` | pkg/liquidity-source/ambient/snapshot_bitmap_view.go:67-83 | seek and flag of the list view as a function of its list |
| `AmbientSnapshot.PinRefines` | pkg/liquidity-source/ambient/snapshot_bitmap_view.go:40-65 | for a loaded window the list's pin is the bitmap's pin, spill included, or the flag is raised |
| `AmbientSnapshot.SeekRefines` | pkg/liquidity-source/ambient/snapshot_bitmap_view.go:67-83 | for a loaded window the list's seek is the scan over storage, which the bitmap's walk computes on consistent storage, or the flag is raised |
| `AmbientSnapshot.SnapshotWalks` | pkg/liquidity-source/ambient/snapshot_bitmap_view.go:40-92 | the list view visits exactly the ticks of its list, nearest first |
| `AmbientLoader.SetBitPositions` | pkg/liquidity-source/ambient/fetcher.go:171-192 | all set bits of a 256-bit word, ascending, each once |
| `AmbientLoader.LoadWindow` | pkg/liquidity-source/ambient/tracker.go:106-216 | fails exactly when a mezzanine bit in reach has an empty terminus word; otherwise lists exactly the indexed active ticks of the window in increasing order; on consistent storage it never fails |
| `AmbientCurve.LegSpendsOrReaches` | pkg/liquidity-source/ambient/swapcurve.go:93-131 | a leg in any direction spends the quantity or reaches its limit price; an input is charged what is taken off the quantity, at most 3 wei more when it runs out, and an output is paid out up to 4 wei short of it |
| `AmbientCurve.LimitFlowIsSmall` | pkg/liquidity-source/ambient/swapcurve.go:32-50 | the flow to any valid limit price stays clear of the sign bit |
| `AmbientPays.LiquidityIs` | pkg/liquidity-source/ambient/liquidity.go:21-26 | the active liquidity is the ambient seeds with their growth, rounded down and cut at 2^128 - 1, plus the concentrated liquidity |
| `AmbientPays.LegPays` | pkg/liquidity-source/ambient/curveroll.go:35-148 | a leg gets to its limit or stops where the quantity runs out, and in either case pays on each side exactly the reserves between its two prices, L·Δ/2^64 of base and L·2^64·Δ/(p·q) of quote up to rounding, with the 4 wei buffer on the sides that carry it; buys and sells, with the quantity on either side as input or output |
| `AmbientPays.StopIs` | pkg/liquidity-source/ambient/curveroll.go:71-124 | the price at which a quantity runs out: base moves the price by x·2^64/L, quote moves its reciprocal, with the roundings of each direction and the clamp to the price range |
| `AmbientPays.BaseStopIsPlain` | pkg/liquidity-source/ambient/curveroll.go:71-113 | with base as the quantity a leg that stops short stays inside the price range: q itself satisfies L(q - p) <= x·2^64 < L(q - p + 1) for a buy, and lies at most one below the limit for a sell |
| `AmbientPays.FeesAre` | pkg/liquidity-source/ambient/swapcurve.go:52-168 | fees are the exact floored share of what the constant-product curve gives on the other side for the flow, and of those the exact floored share in 256ths is the protocol's |
| `AmbientLegs.LimitIs` | pkg/liquidity-source/ambient/swapcurve.go:103-131 | a buyer's leg ends one below the price of the tick ahead, a seller's at it, neither beyond the limit price |
| `AmbientLegs.SwapToLimitPays` | pkg/liquidity-source/ambient/swapcurve.go:22-30 | a leg books exactly those fees on the side the quantity is not fixed on and exactly those payments on both sides, and leaves the curve at the leg's last price |
| `AmbientLegs.CrossingPays` | pkg/liquidity-source/ambient/sweepswap.go:133-194 | a crossing fails if and only if the quantity does not exceed the burn, one more than the reserves between neighbouring prices; otherwise the burn is charged to the side the swap pays and comes off an input quantity, the price moves one further, and bids and asks, in units of 1024 per lot, change the liquidity |
| `AmbientLegs.EmptySweepIs` | pkg/liquidity-source/ambient/sweepswap.go:57-119 | a sweep over a book without active ticks is one leg to the border of the start's word and, if something is left to swap, one to the limit price |
| `AmbientLegs.EmptyBookPays` | pkg/liquidity-source/ambient/sweepswap.go:57-119 | what such a sweep pays on both sides without fees, leg by leg, in plain arithmetic |
| `AmbientSweep.LegKeepsAccount` | pkg/liquidity-source/ambient/swapcurve.go:22-30 | a leg with its fees keeps the account of the quantity: fees touch only the other side |
| `AmbientSweep.LegReaches` | pkg/liquidity-source/ambient/swapcurve.go:22-30 | a leg leaves liquidity and counters unchanged and spends the quantity or reaches the limit it was given |
| `AmbientSweep.StepKeeps` | pkg/liquidity-source/ambient/sweepswap.go:77-119 | an iteration in any direction keeps the run invariant, and one that goes on has crossed a strictly further active tick |
| `AmbientSweep.RunKeeps` | pkg/liquidity-source/ambient/sweepswap.go:57-194 | every state of every sweep with a limit price in range satisfies the run invariant: liquidity, crossing counter, direction of travel |
| `AmbientSweep.SweepEnds` | pkg/liquidity-source/ambient/sweepswap.go:57-131 | every sweep with a limit price in range ends within one iteration more than there are active ticks ahead |
| `AmbientSweep.RunAccounts` | pkg/liquidity-source/ambient/sweepswap.go:57-194 | every state of every sweep, for any view, limit price and fees, accounts for the quantity: an input exactly until it runs out, an output up to 8 wei for each iteration |
| `AmbientSweep.SweepCorrect` | pkg/liquidity-source/ambient/sweepswap.go:57-194 | from any start and in any direction: liquidity is the initial one plus the changes of exactly the active ticks passed, the crossing counter counts each once, the flow on the side of the quantity accounts for it, and the loop ends |
| `AmbientSnapshot.PinSame` | pkg/liquidity-source/ambient/snapshot_bitmap_view.go:40-65 | with nothing active past the window's end the list's pin is the bitmap's pin, flagged or not |
| `AmbientSnapshot.SeekSame` | pkg/liquidity-source/ambient/snapshot_bitmap_view.go:67-83 | the same for seeks |
| `AmbientRefinement.StepAgrees` | pkg/liquidity-source/ambient/sweepswap.go:77-119 | an iteration over a loaded window that is unflagged, or past whose end nothing is active, is apart from the flag the iteration over consistent storage |
| `AmbientRefinement.SweepRefines` | pkg/liquidity-source/ambient/sweepswap.go:57-119 | an unflagged sweep over a loaded window equals, in every component, the sweep over consistent storage; with nothing active past the window's end every sweep does, apart from the flag |
| `AmbientBeyond.LegExact` | pkg/liquidity-source/ambient/curveroll.go:132-179 | what a leg leaves of a quantity is exactly what exceeds its flow and the rounding buffer |
| `AmbientBeyond.NothingBeyondAgrees` | pkg/liquidity-source/ambient/snapshot_bitmap_view.go:40-83 | with nothing active past the window's end every accepted quote is the sweep over storage, for every curve, fee and start in the window |
| `AmbientBeyond.RunMoves` | pkg/liquidity-source/ambient/sweepswap.go:77-119 | without fees a run that goes on passes through the same states with another quantity, the same amount taken off, as long as something would be left |
| `AmbientBeyond.AcceptedAgreesIff` | pkg/liquidity-source/ambient/snapshot_bitmap_view.go:40-83 | without fees, once some quantity brings the window's sweep past its listed ticks and the next tick is tradable, accepted quotes agree with storage for every quantity if and only if nothing is active past the window's end |
| `AmbientTradable.BuyIsTradable` | pkg/liquidity-source/ambient/swapcurve.go:32-50 | a buyer's next tick is tradable when prices follow the order of ticks and liquidity is between 2^64 and 2^128 |
| `AmbientTradable.SellIsTradable` | pkg/liquidity-source/ambient/swapcurve.go:32-50 | a seller's next tick is tradable when prices follow the order of ticks, a unit of input moves the price and the flow to the limit fits a word |
| `AmbientLimits.OutputBeyondNeverEnds` | pkg/liquidity-source/ambient/sweepswap.go:21-131 | with the limit price at or above the top of the range a buy for a fixed output over an empty view goes on after any number of iterations |
| `AmbientTickMath.PositiveTickAbove` | pkg/liquidity-source/ambient/tickmath.go:63-100 | every positive tick has a price above 1 |
| `AmbientTickMath.TickOfUnit` | pkg/liquidity-source/ambient/tickmath.go:102-167 | price 1 has tick 0, taking the tick of a price as the greatest one whose price does not exceed it |
| `AmbientSwap.SwapToLimit` | pkg/liquidity-source/ambient/swapcurve.go:22-30 | the in-place leg computes the leg on values, whose payments on both sides and fees `AmbientLegs.SwapToLimitPays` gives |
| `AmbientSwap.AdjTickLiq` | pkg/liquidity-source/ambient/sweepswap.go:133-194 | the in-place crossing computes the crossing on values, the failing shave included |
| `AmbientSwap.SweepSwap` | pkg/liquidity-source/ambient/sweepswap.go:57-119 | the in-place loop stops and leaves curve, quantity, flows and counters of the sweep on values; over an empty book `AmbientLegs.EmptyBookPays` gives what it pays |
| `AmbientFlagged.FlagMayHideACrossing` | pkg/liquidity-source/ambient/snapshot_bitmap_view.go:40-83 | at the contract's own tick prices, a window and a price inside it where an accepted flagged sweep crosses no tick and the sweep over storage crosses one |
| `AmbientFlagged.WindowCannotBeTrusted` | pkg/liquidity-source/ambient/snapshot_bitmap_view.go:40-83 | the exact condition applied to that book: not every accepted quote of its window is the sweep over storage |
| `AmbientFlagged.SellWindowCannotBeTrusted` | pkg/liquidity-source/ambient/snapshot_bitmap_view.go:40-83 | the same for sells, with the window ending at tick -50 and an active tick at -100 |
| `CarbonMath.Mul512Exact` | pkg/liquidity-source/carbon/match.go:537-568 | high and low word are exactly the product of any two words |
| `CarbonMath.MinFactorIsLeast` | pkg/liquidity-source/carbon/match.go:571-579 | the factor does not wrap, is at least 1, and a factor brings the rounded-up product into a word if and only if it is at least this one; it is 1 if and only if the product fits |
| `CarbonTrade.FlatTargetRoundsDown` | pkg/liquidity-source/carbon/match.go:49-106 | an order with constant price never pays more than its price, for any amount |
| `CarbonTrade.TargetRoundsDownIff` | pkg/liquidity-source/carbon/match.go:49-106 | scaled or not, the target paid is at most the exact curve's if and only if the inverted form, if used, fits a word or pays nothing |
| `CarbonTrade.UnfitInvertedOverpays` | pkg/liquidity-source/carbon/match.go:49-106 | an order, with a capacity beyond the contract's fields, on which one unit is paid although the exact curve pays less than one |
| `CarbonTrade.TargetRoundsDownWrapped` | pkg/liquidity-source/carbon/match.go:49-106 | where T times x wraps, the target paid is still at most the exact curve's for x |
| `CarbonTrade.SourceRoundsUpIff` | pkg/liquidity-source/carbon/match.go:109-172 | unless the denominator vanishes and the answer is the sentinel, the source charged is at least the exact curve's if and only if the scaled cost fits a word or its low word happens to cover it, which it never does where the exact cost exceeds all words |
| `CarbonTrade.SteepOrderUndercharges` | pkg/liquidity-source/carbon/match.go:109-172 | an order below 2^128 in liquidity and capacity that sells all but one unit for one unit, although the exact cost exceeds all words |
| `CarbonTrade.FlatSourceRoundsUpIff` | pkg/liquidity-source/carbon/match.go:109-172 | for an order with constant price, unless its square wraps to zero, the source charged is at least the exact one if and only if its cost fits a word or its low word happens to cover it, which it never does where the square does not wrap |
| `CarbonTrade.FlatOrderGivesAway` | pkg/liquidity-source/carbon/match.go:109-172 | a constant-price order, with liquidity beyond the contract's fields, that sells 2^160 units for nothing |
| `CarbonTrade.Adjoint` | pkg/liquidity-source/carbon/match.go:49-172 | the floored target and the ceiled source quotient are adjoint for all inputs |
| `CarbonTrade.LeastInput` | pkg/liquidity-source/carbon/match.go:49-172 | with no scaling, x buys at least t if and only if x is at least the source amount of t |
| `CarbonBounds.TargetNotFarBelow` | pkg/liquidity-source/carbon/match.go:49-106 | a sloped order pays, scaled or not, no less than the exact curve by more than one unit and what the scaling factor adds twice to the denominator and takes off the numerator; likewise in the inverted form where it fits |
| `CarbonBounds.SourceNotFarAbove` | pkg/liquidity-source/carbon/match.go:109-172 | and charges no more than the exact curve by more than one unit and what the factor adds to the numerator and takes off the denominator, where the cost fits a word |
| `CarbonBounds.FlatTargetIs` | pkg/liquidity-source/carbon/match.go:70-74 | a constant-price order pays exactly the floor of x·B²/2^96 |
| `CarbonBounds.FlatLeastInput` | pkg/liquidity-source/carbon/match.go:49-172 | at constant prices, too, x buys at least t if and only if x is at least the source amount of t |
| `CarbonStored.StoredTargetRoundsDown` | pkg/liquidity-source/carbon/match.go:49-106 | a sloped order with Y <= Z < 2^128, rates below 2^96 and a positive lower price never pays more than the exact curve, where T times x fits a word |
| `CarbonStored.StoredSourceRoundsUp` | pkg/liquidity-source/carbon/match.go:109-172 | any part of such an order's liquidity is sold at or above the exact curve, scaled or not |
| `CarbonStored.FlatFieldRoundsUp` | pkg/liquidity-source/carbon/match.go:109-172 | any amount below 2^128 of a constant-price order is sold at or above its price, unless the square of the price wraps to zero |
| `CarbonStored.BuyingMoreCostsAll` | pkg/liquidity-source/carbon/match.go:174-188 | an input that would buy more than an order's liquidity is at least the rounded cost of all of it, where one unit of slack covers the scaling |
| `CarbonStored.StoredCovered` | pkg/liquidity-source/carbon/match.go:109-172 | one unit of slack always covers the scaling for stored orders |
| `CarbonMatch.RateBySourceAmount` | pkg/liquidity-source/carbon/match.go:174-188 | the decreasing loop ends and never makes an order pay more than its liquidity |
| `CarbonMatch.SourceRateIsMost` | pkg/liquidity-source/carbon/match.go:174-188 | an order is quoted what is offered if it can pay the output, and otherwise the most input, up to the cost of all it has, whose output it can pay |
| `CarbonMatch.SourceRateNeverOverspends` | pkg/liquidity-source/carbon/match.go:174-188 | a quote by source reports no more input than offered for constant prices, and for sloped orders, scaled or not, whose target stays within the curve and whose lower price is zero or whose rounding one unit of slack covers |
| `CarbonMatch.StoredReportsWithin` | pkg/liquidity-source/carbon/match.go:174-188 | every stored order with a positive lower price meets that premise, for amounts whose product with T fits a word |
| `CarbonMatch.MatchFast` | pkg/liquidity-source/carbon/match.go:287-318 | the greedy matcher spends at most the amount for any trade function, and every action is a filtered trade with its order |
| `CarbonPlaced.FastUsesUp` | pkg/liquidity-source/carbon/match.go:287-318 | the greedy matcher places the whole amount, or leaves only what no order takes: every quote was taken for all it offers, or the filter refused what it would give for at least what is left |
| `CarbonMatch.FastIsDistinct` | pkg/liquidity-source/carbon/match.go:287-318 | the greedy matcher acts at most once per quoted order |
| `CarbonPlaced.EqualTargetIsMost` | pkg/liquidity-source/carbon/match.go:205-244 | bringing a sloped order to a limit sells exactly the most units that leave the order's own limit no lower |
| `CarbonPlaced.EqualSourceIsLeast` | pkg/liquidity-source/carbon/match.go:246-248 | by source it takes the least input that sells as much, with no scaling |
| `CarbonMatch.Bisect` | pkg/liquidity-source/carbon/match.go:376-420 | the bisection ends on hi - lo, for any trade function, and computes the level `CarbonMatch.BisectedCrosses` characterises |
| `CarbonMatch.BisectedCrosses` | pkg/liquidity-source/carbon/match.go:376-420 | the bisection stops where the level crosses the amount: it asks for exactly the amount, or for more while one limit up it asks for less, or for less while one limit down it asks for more |
| `CarbonMatch.ScanFinds` | pkg/liquidity-source/carbon/match.go:349-422 | the scan stops at the first level that asks for at least the amount, or the last, and leaves that level at its own limit or where it crosses the amount |
| `CarbonMatch.FoundSettles` | pkg/liquidity-source/carbon/match.go:349-422 | where the totals fit at the limits tried, the level found is the amount plus or minus exactly its signed difference |
| `CarbonMatch.BisectionMayNotEnd` | pkg/liquidity-source/carbon/match.go:320-475 | with its upper end at the greatest word the bisection goes on for ever if every level asks for more than the amount |
| `CarbonMatch.TrimExcess` | pkg/liquidity-source/carbon/match.go:424-444 | the in-place loop cuts as `CarbonMatch.Trimmed`, for any trade function; what that leaves is stated by the two rows below |
| `CarbonMatch.TrimmedWithin` | pkg/liquidity-source/carbon/match.go:424-444 | for trades that report no more than they are offered, cutting brings the total down to the amount, through the two's complement sign of the difference |
| `CarbonPlaced.TrimmedIsExact` | pkg/liquidity-source/carbon/match.go:424-444 | for orders that take in exactly what they are offered, up to what they took, cutting leaves exactly the amount; a cut order trades its new input and nothing is left behind it |
| `CarbonPlaced.FlatBookReports` | pkg/liquidity-source/carbon/match.go:174-188 | by source amount orders of constant price meet that premise, where the output of the whole total fits a word |
| `CarbonMatch.TopUp` | pkg/liquidity-source/carbon/match.go:445-461 | the in-place loop tops up as `CarbonMatch.ToppedUp`, for any trade function |
| `CarbonMatch.ToppedUpLeaves` | pkg/liquidity-source/carbon/match.go:445-461 | topping up never lowers the total and never completes the amount: every order offered the rest refuses a part of it, or the order at which it stops would have taken all of it |
| `CarbonMatch.MatchBest` | pkg/liquidity-source/carbon/match.go:320-475 | for any trade function the actions are exactly the filtered rates of the level found, cut or topped up; they spend at most the amount whenever the trade function reports no more input than offered for the ladder's orders and totals fit at the limits it tries for that amount; a level that hits the amount exactly is taken as it is; actions are on distinct orders |
| `CarbonPlaced.BestPlaces` | pkg/liquidity-source/carbon/match.go:320-475 | an exact level is placed as it is, an excess is cut to exactly the amount where the orders report exactly, and a level that falls short stays short, by what `CarbonMatch.ToppedUpLeaves` describes |
| `CarbonPlaced.CollectAccounts` | pkg/liquidity-source/carbon/match.go:463-475 | the actions spend what the rates take in less exactly what the filter drops |
| `CarbonPlaced.CollectKeeps` | pkg/liquidity-source/carbon/match.go:463-475 | the actions are exactly the rates that pass the filter |
| `CarbonByTarget.MatchBestByTarget` | pkg/liquidity-source/carbon/match.go:513-524 | by target amount, what is taken never exceeds what was asked; with what the filter drops it is what `CarbonByTarget.ByTargetPlaces` says is placed |
| `CarbonByTarget.ByTargetPlaces` | pkg/liquidity-source/carbon/match.go:320-475 | by target an amount beyond the book gets the whole book; one within it is placed exactly if and only if the level found does not ask for less, and otherwise some order could take all that is left |
| `CarbonByTarget.StoredAsksAll` | pkg/liquidity-source/carbon/match.go:220-246 | at limit zero a stored order is asked for all it has, the premise of that |
| `CarbonByTarget.ByTargetFallsShort` | pkg/liquidity-source/carbon/match.go:445-461 | the one-order book of ten units from which seven are asked and five are placed |
| `CarbonMatch.SourceModeNeverOverReports` | pkg/liquidity-source/carbon/match.go:500-511 | by source amount that premise holds for books of orders that report within what they are offered |
| `CarbonMatch.LimitFits` | pkg/liquidity-source/carbon/match.go:205-218 | only an order with a capacity of one unit can have a limit at the sign bit |
| `CarbonMatch.StoredLimitFits` | pkg/liquidity-source/carbon/match.go:205-218 | no stored order has one |
| `CarbonSentinel.ExactHitSpends` | pkg/liquidity-source/carbon/match.go:320-475 | a level that hits the amount exactly spends one more for each sentinel in it, so it keeps to the amount if and only if there is none |
| `CarbonSentinel.ExactHitOverspends` | pkg/liquidity-source/carbon/match.go:320-475 | the two-order book on which the equalising matcher takes in two units for one offered |
| `CarbonPool.PoolSimulator.ProcessMatchActions` | pkg/liquidity-source/carbon/pool_simulator.go:194-247 | the plan has one entry for each action and pays each order at most its liquidity; the taker gets the share of the payout that is not the fee, rounded down, and with the fee that is the plan's total; there is no output if and only if the total, as a signed word, is not positive |
| `CarbonPool.PoolSimulator.UpdateBalance` | pkg/liquidity-source/carbon/pool_simulator.go:249-267 | the orders become those of the plan applied to the old ones |
| `CarbonPool.PoolSimulator.CalcAmountOut` | pkg/liquidity-source/carbon/pool_simulator.go:63-192 | the answer is the equalising matcher's unless that pays nothing or the greedy one pays more after the fee; it is a plan that fits the pool it was quoted on and takes in no more than was offered, where every order reports within what it is offered and totals fit at the limits tried |
| `CarbonPool.PoolSimulator.TradeBySource` | pkg/liquidity-source/carbon/pool_simulator.go:150-192 | both answers are the ones that the two matchers' actions stand for, and fit the pool; the greedy one always takes in at most what was offered, the equalising one where every order reports within what it is offered and totals fit at the limits tried |
| `CarbonPool.LiquidityFalls` | pkg/liquidity-source/carbon/pool_simulator.go:249-267 | applying a plan lowers the target side's total liquidity by exactly the plan's payout, with no underflow |
| `CarbonPool.SourcesRise` | pkg/liquidity-source/carbon/pool_simulator.go:249-267 | and raises the liquidity of the other side's orders by exactly what the plan takes in, unless one of them wraps |
| `CarbonPool.BookIsComplete` | pkg/liquidity-source/carbon/pool_simulator.go:63-148 | every strategy whose target order has liquidity is offered to the matchers |
| `CarbonPool.CapacityKept` | pkg/liquidity-source/carbon/pool_simulator.go:249-267 | applying a plan keeps Y <= Z on both orders of every strategy |
| `CarbonPool.RunKeepsCapacity` | pkg/liquidity-source/carbon/pool_simulator.go:194-267 | over every run of quotes and updates Y <= Z holds everywhere |
| `CarbonPool.FeeSplits` | pkg/liquidity-source/carbon/pool_simulator.go:194-247 | the taker gets total · (10^6 - fee) / 10^6, rounded down once the product is cut to a word; with the fee that is what the orders pay |
| `BounceTech.MintOutIsExact` | pkg/liquidity-source/bounce-tech/pool_simulator.go:240-245 | the two-step scaling mints the floor of usdc * 10^30 / rate |
| `BounceTech.OneMoreSuffices` | pkg/liquidity-source/bounce-tech/pool_simulator.go:240-245 | one unit more than the floored cost of an LT amount always mints that amount |
| `AltFun.CurveBuySound` | pkg/liquidity-source/alt-fun/pool_simulator.go:244-289 | no curve subtraction underflows; a buy capped by the balance uses some, and at most the minted, LT |
| `AltFunPays.LtUntilGradIsLeast` | pkg/liquidity-source/alt-fun/pool_simulator.go:337-364 | what is left to raise is the least LT amount whose value, on top of what was raised, meets the threshold, and zero exactly where that is met, not set or cannot be told |
| `AltFunPays.BuyAcceptedIff` | pkg/liquidity-source/alt-fun/pool_simulator.go:105-244 | exactly when a buy is quoted: on the curve, minting open, the amount after its fee and what is converted of it at least the minima and minting something, and tokens to pay |
| `AltFunPays.BuyPays` | pkg/liquidity-source/alt-fun/pool_simulator.go:177-289 | an accepted buy in plain arithmetic: the floored fee up front, the USDC converted (all, or the least that mints what graduation needs), the LT minted, the tokens as the curve's or those held, the LT used, the fee pro-rated to it and the refund of everything else |
| `AltFun.BuyAccounts` | pkg/liquidity-source/alt-fun/pool_simulator.go:177-289 | usdcIn is exactly base converted plus fee plus refund, and LT used is at most LT minted |
| `AltFun.PreSizedMintsEnough` | pkg/liquidity-source/alt-fun/pool_simulator.go:205-244 | a mint sized to graduation yields at least what graduation needs |
| `AltFun.PreSizedBuyGraduates` | pkg/liquidity-source/alt-fun/pool_simulator.go:399-450 | a pre-sized buy that the balance does not cap leaves the curve phase on update |
| `AltFun.GraduationIsFinal` | pkg/liquidity-source/alt-fun/pool_simulator.go:105-174 | after that every quote is refused and no run changes anything |
| `AltFun.SellKeepsCurveIff` | pkg/liquidity-source/alt-fun/pool_simulator.go:399-450 | a sell's update stays on the floored curve if and only if there are tokens to divide by |
| `AltFun.ZeroSellDrains` | pkg/liquidity-source/alt-fun/pool_simulator.go:292-328 | the pool, with no sell fee, on which selling nothing is quoted the whole asset reserve |
| `AltFunPays.SellPays` | pkg/liquidity-source/alt-fun/pool_simulator.go:292-328 | exactly when a sell is quoted, and what it pays: the LT freed is asset - k / (token + in), of what is redeemed for it less the redemption fee the floored zap fee is taken, and both fees are reported |
| `AltFunPays.BuyBooks` | pkg/liquidity-source/alt-fun/pool_simulator.go:399-437 | the update after an accepted buy: the asset side takes in the LT used, the token side is the curve's, the tokens held fall by what was paid, and graduation starts exactly when nothing is left to raise |
| `AltFunPays.SellBooks` | pkg/liquidity-source/alt-fun/pool_simulator.go:437-442 | the update after an accepted sell: the reserves it was priced at, with the tokens held |
| `AltFunPays.FallbackMints` | pkg/liquidity-source/alt-fun/pool_simulator.go:414-430 | a quote that recorded no LT is booked as what the input less its fee mints |
| `AltFun.RunKeepsCurve` | pkg/liquidity-source/alt-fun/pool_simulator.go:399-450 | every run of buys and sells keeps token * asset <= k < (token + 1) * (asset + 1) |
| `AltFun.PoolSimulator.UpdateBalance` | pkg/liquidity-source/alt-fun/pool_simulator.go:399-450 | the pool is on its curve afterwards if and only if the reserve it divided by is not empty; a buy after which nothing is left to raise starts graduation, and nothing else changes the phase |
| `ArenaMath.IntegralsAre` | pkg/liquidity-source/arena-bc/math.go:9-43 | the wrapping formulas compute the exact area of the curve, rounded up for buyers and down for sellers |
| `ArenaMath.FeeIs` | pkg/liquidity-source/arena-bc/math.go:45-61 | the three rounded fees and the cost with them are exact within words |
| `ArenaBc.CalculatePurchaseAmount` | pkg/liquidity-source/arena-bc/pool_simulator.go:278-308 | the loop with its early exits computes the value-level search |
| `ArenaBc.PurchaseIsBest` | pkg/liquidity-source/arena-bc/pool_simulator.go:278-318 | the amount is affordable, and below 2^100 whole tokens every larger one within the limit costs at least the budget |
| `ArenaPool.PoolSimulator.BuyAndCreateLpIfPossible` | pkg/liquidity-source/arena-bc/pool_simulator.go:206-263 | an accepted buy splits the budget into exact cost and refund, stays within the maximum, and could not have bought more for less than the budget |
| `ArenaPool.PoolSimulator.CalcAmountOut` | pkg/liquidity-source/arena-bc/pool_simulator.go:84-129 | nothing is quoted while paused or once deployed; on a healthy pool a sell is quoted if and only if it is at least a token and at most the supply |
| `ArenaPool.PoolSimulator.UpdateBalance` | pkg/liquidity-source/arena-bc/pool_simulator.go:150-161 | applying a quote keeps a healthy pool healthy if and only if it is not a buy-out across a token boundary that leaves the balance short; only a buy that meets the threshold deploys |
| `ArenaSolvency.BuyIs` | pkg/liquidity-source/arena-bc/pool_simulator.go:206-263 | an accepted buy pays in its exact cost with fees, and budget = cost + refund with no underflow |
| `ArenaSolvency.BuyPastMaximumFails` | pkg/liquidity-source/arena-bc/math.go:68-75 | although the limit is not reduced when supply is past it, every such buy is refused |
| `ArenaPays.SellPays` | pkg/liquidity-source/arena-bc/pool_simulator.go:172-204 | when a sell is accepted, and that the seller gets the curve's area, rounded down, less the three rounded fees, while the balance gives up the whole area and the fraction of a token is handed back |
| `ArenaPays.BuyPays` | pkg/liquidity-source/arena-bc/pool_simulator.go:206-263 | when a buy is accepted, the refusal to complete a sale whose deployment is not allowed included, and that the buyer pays the area, rounded up, and the three fees and is refunded the rest |
| `ArenaPays.BoughtIsMost` | pkg/liquidity-source/arena-bc/pool_simulator.go:278-318 | a purchase stays within the share of the supply that is for sale, and every larger number of whole tokens within it costs at least the budget |
| `ArenaPays.ThresholdIs` | pkg/liquidity-source/arena-bc/pool_simulator.go:271-276 | the sale is complete exactly when the supply is its given share of the allowed supply |
| `ArenaSolvency.SellAcceptedIff` | pkg/liquidity-source/arena-bc/pool_simulator.go:172-204 | on a solvent pool a sell succeeds if and only if it is at least one token and at most the supply; the native balance check never fires |
| `ArenaSolvency.SellKeepsSolvent` | pkg/liquidity-source/arena-bc/pool_simulator.go:172-204 | a sell of any amount keeps the pool solvent |
| `ArenaSolvency.BuyKeepsSolventIff` | pkg/liquidity-source/arena-bc/pool_simulator.go:206-263 | an accepted buy keeps the pool solvent if and only if it does not buy out the maximum across a token boundary, or balance and price cover the token completed there |
| `ArenaSolvency.CarriesIff` | pkg/liquidity-source/arena-bc/pool_simulator.go:278-308 | a purchase completes an unpaid token if and only if it buys out a maximum whose fraction is below the supply's |
| `ArenaSolvency.TightBuyOutBreaks` | pkg/liquidity-source/arena-bc/pool_simulator.go:206-263 | without fees and surplus no such buy-out is covered |
| `ArenaSolvency.RunStaysHealthyIff` | pkg/liquidity-source/arena-bc/pool_simulator.go:150-263 | over any run of buys and sells, fractional ones included, the pool stays solvent throughout if and only if every accepted buy is covered |
| `ArenaSolvency.RunKeepsSolvency` | pkg/liquidity-source/arena-bc/pool_simulator.go:150-263 | from a solvent aligned pool, every run of buys and whole-token sells stays solvent |
| `ArenaSolvency.SellsAlwaysQuoted` | pkg/liquidity-source/arena-bc/pool_simulator.go:521-532 | along such a run a sell is quoted if and only if it is at least a token and within supply |
| `ArenaSolvency.FractionalSellThenBuyOutBreaks` | pkg/liquidity-source/arena-bc/pool_simulator.go:172-263 | the three-trade run after which a sell within supply fails the native balance check |
| `DeltaSwap.CalcAmountIn` | pkg/liquidity-source/deltaswap-v1/pool_simulator.go:115-208 | the loop computes the value-level fee iteration and the final check, whose fee and answer `DeltaSwapFee.ExactOutputFeeIs` gives |
| `DeltaSwap.FeeMono` | pkg/liquidity-source/deltaswap-v1/pool_simulator.go:267-355 | a larger input never entails a smaller fee, through square root, moving average and threshold; which fee it entails is `DeltaSwapFee.FeeIs` |
| `DeltaSwapFee.TradeLiquidityIs` | pkg/liquidity-source/deltaswap-v1/pool_simulator.go:328-340 | the trade liquidity is the floored square root of half the input times the output side's share of it |
| `DeltaSwapFee.FeeIs` | pkg/liquidity-source/deltaswap-v1/pool_simulator.go:276-326 | the fee is dsFee if and only if the trade liquidity, or the moving average it brings about in the same block, within 50 blocks or later, exceeds liquidityEMA · dsFeeThreshold / 1000, and zero otherwise |
| `DeltaSwapFee.AmountOutIs` | pkg/liquidity-source/deltaswap-v1/pool_simulator.go:234-242 | the output is the exact floor of the constant product after the fee in thousandths |
| `DeltaSwapFee.ForwardQuoteIs` | pkg/liquidity-source/deltaswap-v1/pool_simulator.go:60-113 | a forward quote is exactly that output at exactly that fee, or the refusal of an amount of zero, a trade without liquidity, or an output that reaches the reserve |
| `DeltaSwapFee.ExactOutputFeeIs` | pkg/liquidity-source/deltaswap-v1/pool_simulator.go:115-208 | an exact-output quote ends with dsFee if and only if the input is charged both at the first guess of 3 and at dsFee, and answers one more than the floored input for that fee |
| `DeltaSwapFee.ExactOutputAcceptedIff` | pkg/liquidity-source/deltaswap-v1/pool_simulator.go:115-208 | an exact-output quote is given if and only if every fee the search passes through has an answer without overflow that moves some liquidity: 3, dsFee if the input for 3 is charged, and none unless both are |
| `DeltaSwap.AmountInMono` | pkg/liquidity-source/deltaswap-v1/pool_simulator.go:244-265 | a larger assumed fee never needs a smaller input |
| `DeltaSwap.FeeSettles` | pkg/liquidity-source/deltaswap-v1/pool_simulator.go:152-180 | the loop settles or fails for another reason within three iterations |
| `DeltaSwap.ExactOutputNeverGivesUp` | pkg/liquidity-source/deltaswap-v1/pool_simulator.go:115-208 | neither the iteration limit nor the invariant check rejects a quote, whose answer is that of three iterations |
| `DeltaSwap.ForwardPaysAtLeast` | pkg/liquidity-source/deltaswap-v1/pool_simulator.go:60-113 | selling the answered input is charged the same fee and pays at least the requested output |
| `BancorPath.JoinedIsChain` | pkg/liquidity-source/bancor-v21/pool_simulator.go:260-275 | joining two chains at their meeting point, a token or an anchor, gives a chain from source to target token |
| `BancorPath.JumpsToLast` | pkg/liquidity-source/bancor-v21/pool_simulator.go:277-285 | the index-jumping scan stops at the last position of its parity with its value |
| `BancorPath.PathConnects` | pkg/liquidity-source/bancor-v21/pool_simulator.go:260-292 | the merged path is an odd chain from source to target token, every hop valid, no token and no anchor twice |
| `BancorPath.PathKeepsSimpleJoin` | pkg/liquidity-source/bancor-v21/pool_simulator.go:260-292 | a join without repetitions is returned unchanged |
| `BancorPath.Prune` | pkg/liquidity-source/bancor-v21/pool_simulator.go:277-287 | compacting the array in place while scanning it gives the pruning of its original contents |
| `BancorPath.GetShortestPath` | pkg/liquidity-source/bancor-v21/pool_simulator.go:260-292 | the array returned is the merged path, the empty one for empty inputs |
| `BancorPath.GetPartialArray` | pkg/liquidity-source/bancor-v21/pool_simulator.go:213-225 | the prefix, cut to the array's length |
| `BancorMath.Mul512Exact` | pkg/liquidity-source/bancor-v3/math/math_ex.go:98-111 | the remainders modulo 2^256 - 1 and 2^256 give exactly the 512-bit product |
| `BancorMath.Sub512Exact` | pkg/liquidity-source/bancor-v3/math/math_ex.go:85-96 | the two-word subtraction is exact |
| `BancorMath.Div512Exact` | pkg/liquidity-source/bancor-v3/math/math_ex.go:71-83 | dividing two words by a power of two keeps the low word of the exact quotient |
| `BancorMath.NewtonStep` | pkg/liquidity-source/bancor-v3/math/math_ex.go:63-69 | each step squares the modulus up to which the inverse is right |
| `BancorMath.Inv256` | pkg/liquidity-source/bancor-v3/math/math_ex.go:63-69 | eight steps invert every odd number modulo 2^256 |
| `BancorMath.MulDivF` | pkg/liquidity-source/bancor-v3/math/math_ex.go:37-61 | for all words the result is the floor of x * y / z if it fits a word and an error otherwise; dividing by zero gives zero while the product fits |
| `BancorMath.FloorDividedIs` | pkg/liquidity-source/bancor-v3/math/math_ex.go:37-61 | the specification used for it is the exact floored quotient of the product |
| `BancorV3.TradeAmountAndFeeBySource` | pkg/liquidity-source/bancor-v3/pool_collection.go:368-394 | amount and fee through the full-precision division, as on values |
| `BancorV3.TradeResult.ProcessNetworkFee` | pkg/liquidity-source/bancor-v3/pool_collection.go:325-362 | the record's fields become those of the value-level network fee, or its error is returned |
| `BancorV3.TradeResult.ProcessTrade` | pkg/liquidity-source/bancor-v3/pool_collection.go:266-319 | the record's fields become those of the value-level trade, or its error is returned |
| `BancorV3.TradeKeeps` | pkg/liquidity-source/bancor-v3/pool_collection.go:266-394 | a trade succeeds if and only if both sides hold liquidity and the limit is met, so the nested trade never fails; product and stake never fall, and payment and both fees are the exact shares |
| `BancorV3.AcceptedIff` | pkg/liquidity-source/bancor-v3/pool_collection.go:74-228 | a trade on the pool is accepted if and only if trading is enabled, both sides hold liquidity and the share less its fee meets the limit |
| `BancorV3.BntBuysBase` | pkg/liquidity-source/bancor-v3/pool_collection.go:74-362 | BNT in: payment plus trading fee is base · x / (bnt + x), the base side pays out the payment, the BNT side takes in the amount less the network fee, which is the trading fee's share sold back, and the rest of the trading fee is staked |
| `BancorV3.BaseBuysBnt` | pkg/liquidity-source/bancor-v3/pool_collection.go:74-362 | base token in: the mirror, with the network fee taken out of the BNT side and the stake unchanged |
| `BancorV3.RunKeepsProduct` | pkg/liquidity-source/bancor-v3/pool_collection.go:74-259 | over every run in either direction neither product nor stake falls; the two rows above say which side moves by how much |
| `BancorV3.NoSideFallsAlone` | pkg/liquidity-source/bancor-v3/pool_collection.go:74-259 | no run lowers one side's liquidity without the other side holding at least what it held |

## Left out

- Ambient: fee assimilation (`assimilate.go`, `compound.go`) and, except in the concrete example, tick and price conversion are function parameters; hashed slots are maps; read errors are not modelled; the logarithm that finds the tick of a price is replaced by what it is documented to return.
- AmbientSwap.SweepSwap: limit prices outside the price range, where the loop need not end (`AmbientLimits.OutputBeyondNeverEnds`); it takes the view as three functions, and that the methods of both views compute them is stated by their own contracts.
- AmbientBeyond.AcceptedAgreesIff: pools with fees and exact-output quotes, for which only the direction of `AmbientBeyond.NothingBeyondAgrees` is stated, and next ticks that are not `Tradable`.
- AmbientLoader.LoadWindow: batching of reads and the final in-place sort; the list is proved increasing before the sort, which then changes nothing.
- Carbon: the order of the quotes (sorting by rate) is an input of the matchers; the dust filter is not modelled.
- CarbonTrade.TargetRoundsDownIff: both directions where T times x fits a word; where it wraps, `CarbonTrade.TargetRoundsDownWrapped` has the rounding direction alone.
- CarbonBounds.TargetNotFarBelow: sources for which T times the amount wraps, and the inverted form where it does not fit a word.
- CarbonMatch.SourceRateNeverOverspends: orders beyond the contract's sizes whose rounding one unit of slack does not cover, and amounts whose product with T does not fit a word.
- CarbonMatch.Bisect: limits at or above 2^255, where the sum of two limits wraps and the loop need not end (`CarbonMatch.BisectionMayNotEnd`).
- CarbonMatch.MatchBest: the same limits, and amounts for which a level it reaches holds the sentinel or a total at the sign bit; there the budget can be exceeded (`CarbonSentinel.ExactHitOverspends`).
- CarbonByTarget.ByTargetPlaces: books whose liquidity or whose A y + B z does not fit, and rates that the filter drops, which `CarbonByTarget.MatchBestByTarget` accounts for separately.
- CarbonPlaced.TrimmedIsExact: sloped orders by source amount whose rounded target is not monotone in the input; for them the total ends at most at the amount (`CarbonMatch.TrimmedWithin`).
- AmbientPays.LegPays: active liquidity of zero or from 2^128 on, and prices at which the product in the quote reserves does not fit a word; it wraps silently there.
- AmbientLegs.EmptyBookPays: fees between the legs, whose booking changes the curve by a function parameter; a single leg with fees is `AmbientLegs.SwapToLimitPays`.
- AltFun.BuyAccounts: products of the buy that do not fit a word (`BuyFits`), which the source lets wrap silently.
- Alt-Fun and Bounce-Tech: token addresses, gas and the redemption side's own state update.
- ArenaBc.PurchaseIsBest: a zero curve scaler and curve values that do not fit a word (`CurveFits`); the formulas wrap silently there.
- Arena: exact-output quotes, gas estimates and the output tolerance band.
- DeltaSwap.ExactOutputNeverGivesUp: inputs whose trade liquidity, moving average or invariant products do not fit a word, where the code's arithmetic wraps.
- DeltaSwapFee.FeeIs: thresholds and averages that do not fit a word.
- DeltaSwap: the update of reserves and moving averages after a trade.
- Bancor v2.1: `getPath`, which need not terminate on every registry; the merge takes any two chains that share their last element.
- Bancor v3: trades by target amount, whose source amount is rounded down, and two-hop trades between base tokens.
- BancorV3.TradeKeeps: source balance plus amount, or stake plus target balance, that do not fit a word, and rates above 1,000,000 ppm.
- The square root and the library divisions of Carbon, Alt-Fun and Arena are taken as exact floors and ceilings, cut to a word where they do not fit.
- Everything that only fetches, decodes or registers: RPC, subgraph, ABI and configuration code, pool lists and other exchanges' single-formula simulators.
