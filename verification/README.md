# A verified model of the trading lab's exact arithmetic and ledgers

This Dafny project models the parts of the repository that decide amounts, balances and state, and proves what they
promise for every input, every state and every run:

- **The Uniswap V3 engine** (`FullMath`, `RealMath`, `Bits`, `TickMath`, `TickGrowth`, `SqrtPriceMath`, `SwapMath`,
  `TickBitmap`, `SwapSimulator`, `SwapCrossings`): fixed-point tick prices, the bitmap search, one swap step with its
  emulated uint256 overflow branch, the swap loop and what a quote reports. On top of it: what a bigger input does
  (`SwapMonotone`), when exact-output and exact-input quotes agree (`SwapDuality`), exact conservation of each token
  along the price axis (`SwapConservation`) and why a round trip never profits (`SwapRoundTrip`).
- **The pool behind the engine** (`LiquidityAmounts`, `PoolLiquidity`, `Positions`, `PoolWorld`): mint and burn amounts,
  the tick window as a record of positions, and a pool that stays matched and solvent through any interleaving of
  mints, burns and swaps.
- **The tracker and the predictor** (`PoolEvents`, `PoolTracker`, `UniswapV2Math`, `Predictor`): event-sourced block
  states with anchors, rewinds and trimming; exact V2 swaps; swaps predicted leg by leg on both pools.
- **The ledgers** (`LpPaperBook`, `CashAccount`, `RiskLimits`, `FillModels`, `PaperBroker`): the paper LP book and its
  reconciliation, and the cash-account broker whose open quotes stay covered.
- **Two numeric loops** (`GaussianSolver`, `ArbScanner`): elimination with partial pivoting, and the integer ternary
  search over the exact profit of trading one size against both pools.

Integers are unbounded, as in Python; 160-, 128- and 256-bit limits appear where the code compares against them. Shifts
and masks are division and remainder by powers of two. `SwapSimulator`, `TickMath`, `TickBitmap`, `FillModels`,
`RiskLimits`, `ArbScanner`, `Predictor` and `GaussianSolver` keep the program's loops as methods, each equal to a
function whose properties are then proved; the tracker, the LP book, the inventory and the broker are classes with the
program's fields.

## Where the code and its description differ

- README.md:504 of the repository says the LP book reconciles on every observation and that the residual stays under
  0.01% of capital. The residual is exactly the capital rounding (at most half a raw quote unit) minus the value of the
  dust of every mint made (0 or 1 raw unit of each token): `LpPaperBook.Book.Step` reports that, and
  `LpPaperBook.OpeningDoesNotReconcile` is an opening after which it is not zero. So the 0.01% holds whenever it is worth
  half a quote unit and one unit of each token per rebalance (`LpPaperBook.ErrorWithinPromise`).
- A step of the LP book whose swap simulation raises has already accrued its interval while the last observation is still
  the one before. Repeating the step without going back to a checkpoint counts the price move twice
  (`LpPaperBook.AccruedTwice`); going back to one undoes the step (`LpPaperBook.StepAndGoBack`).
- An exact-output quote's input, paid as exact input, need not buy the quoted output. `SwapDuality.QuoteDual` says
  exactly when it does. Unless the quote's last pass stops short of a target: always. Otherwise, when the same input does
  not land on a tick it cannot cross, and that pass swaps token1 in, or pays for its whole target, or its product fits
  uint256, or the fallback price the code then uses is not above the quoted one.
  `SwapDuality.OverflowBreaksDuality` is a pool and an amount where none of the last four
  holds; `PoolWorld.DualOnMatchingPool` gives a bound on the charge under which one always does.
- app/services/dex_arb_scanner.py:5-6 argues that profit is concave, so ternary search finds the best size.
  `ArbScanner.SearchMaximisesConcave` proves that step for every concave profit. The profit of the two legs is rounded,
  and `ArbScanner.RoundingMissesTheBest` is a market with both legs quoted in full where the search misses the best size;
  `ArbScanner.SearchNearlyMaximises` bounds the shortfall by the distance from a concave profit.
- `_solve` refuses a system as soon as a column of its elimination has no entry of 1e-300 or more, although the system
  may have a single solution: `GaussianSolver.RefusedThoughSolvable` is one. `GaussianSolver.ZeroPivotHasNoSingleSolution`
  shows that refusing is right when that column is exactly zero.

## Model

| member | source | states |
|---|---|---|
| `FullMath.MulDivRoundingUp` | app/market_data/uniswap_v3/full_math.py:10-17 | rounding down and adding one on a remainder is the ceiling, for every sign of the product |
| `FullMath.FloorOfFloor` | app/market_data/uniswap_v3/full_math.py:4-7 | two floor divisions in a row are one by the product of the divisors |
| `FullMath.CeilOfCeil` | app/market_data/uniswap_v3/full_math.py:10-23 | two ceiling divisions in a row are one by the product of the divisors |
| `TickMath.GetSqrtRatioAtTick` | app/market_data/uniswap_v3/tick_math.py:36-54 | the loop over the 20 factors computes the ratio function, and fails exactly outside the tick range |
| `TickMath.RatioStrictlyIncreasing` | app/market_data/uniswap_v3/tick_math.py:36-54 | the ratio strictly increases over the whole tick range, despite twenty truncations, a reciprocal and a round-up |
| `TickMath.RatioEnds` | app/market_data/uniswap_v3/tick_math.py:36-54 | the ratios at both ends are exactly MIN_SQRT_RATIO and MAX_SQRT_RATIO |
| `TickGrowth.TickIsBasisPoint` | app/market_data/uniswap_v3/tick_math.py:13-54 | one tick is one basis point of price: over the whole range the square of the next ratio is 1.0001 times the square of this one, once a slack is taken off either ratio; the slack is 2 units, plus the square of the next ratio over 2^219, which only prices far above parity notice. With the ratio of tick 0 this fixes all twenty factors |
| `TickMath.GetTickAtSqrtRatio` | app/market_data/uniswap_v3/tick_math.py:57-68 | the binary search ends at the one tick whose ratio is at most the price and whose successor's is above it |
| `TickMath.TickIsUnique` | app/market_data/uniswap_v3/tick_math.py:57-68 | any tick bracketing the price is the one the search returns |
| `TickMath.TickOfRatio` | app/market_data/uniswap_v3/tick_math.py:57-68 | the search inverts the ratio on every tick below MAX_TICK |
| `SqrtPriceMath.Amount0DeltaRoundsOnce` | app/market_data/uniswap_v3/sqrt_price_math.py:88-102 | two nested roundings give the exact token0 amount rounded once, in either order of the prices |
| `SqrtPriceMath.NextPriceFromInput0` | app/market_data/uniswap_v3/sqrt_price_math.py:17-31 | the next price is affordable on both branches, and the furthest affordable one unless the product overflows |
| `SqrtPriceMath.NextPriceFromInput0Antitone` | app/market_data/uniswap_v3/sqrt_price_math.py:17-31 | more token0 in never moves the price less, also where the larger amount switches to the overflow fallback |
| `SqrtPriceMath.NextPriceFromInput1` | app/market_data/uniswap_v3/sqrt_price_math.py:38-49 | the next price is exactly the greatest whose rounded-up cost the input pays, or an overflow |
| `SqrtPriceMath.NextPriceFromOutput0` | app/market_data/uniswap_v3/sqrt_price_math.py:33-35 | the next price is exactly the least that delivers the output rounded down |
| `SqrtPriceMath.NextPriceFromOutput1` | app/market_data/uniswap_v3/sqrt_price_math.py:51-57 | the next price is exactly the greatest that delivers the output rounded down, or an error when none is positive |
| `SwapMath.ExactInputStepContract` | app/market_data/uniswap_v3/swap_math.py:23-98 | never errs, never overshoots, reaches the target iff the input after fee covers the rounded-up amount, otherwise spends all that remains; stops at the furthest affordable price unless the product overflows |
| `SwapMath.ExactOutputStepContract` | app/market_data/uniswap_v3/swap_math.py:58-98 | errs exactly in the overflow case of a token0 output, otherwise delivers what is asked or everything up to the target, at the nearest price that does |
| `SwapMath.ExactInputStepMonotone` | app/market_data/uniswap_v3/swap_math.py:36-98 | more input never yields less output, consumption or movement in one step, across the overflow switch too |
| `SwapMath.BudgetAndFee` | app/market_data/uniswap_v3/swap_math.py:40-43 | an amount fits the input after fee iff the amount plus its own rounded-up fee fits the input |
| `SwapMath.FeeCoversShare` | app/market_data/uniswap_v3/swap_math.py:93-96 | the fee is the least integer that is at least its share of amount plus fee |
| `TickBitmap.SearchDown` | app/market_data/uniswap_v3/tick_bitmap.py:28-44 | finds the nearest initialized tick at or below, or the word's lower edge, with no initialized tick skipped |
| `TickBitmap.SearchUp` | app/market_data/uniswap_v3/tick_bitmap.py:45-54 | finds the nearest initialized tick above, or the word's upper edge, with no initialized tick skipped |
| `TickBitmap.ChainDownNearest` | app/market_data/uniswap_v3/swap_simulator.py:99-140 | repeating the downward search from just below each word edge finds the nearest initialized tick across words, or shows there is none loaded |
| `TickBitmap.ChainUpNearest` | app/market_data/uniswap_v3/swap_simulator.py:99-140 | the same upward, from each word edge on |
| `TickBitmap.InitializedTicksInWords` | app/market_data/uniswap_v3/tick_bitmap.py:57-66 | the expansion is strictly increasing and holds exactly the ticks whose bit is set |
| `TickBitmap.ChainsVisitTheList` | app/market_data/uniswap_v3/tick_bitmap.py:28-66 | from each listed tick the chained searches visit exactly its neighbours in the list, in both directions, and nothing beyond its ends |
| `TickBitmap.ListTicks` | app/market_data/uniswap_v3/tick_bitmap.py:57-66 | the expansion of a window's words is such a list |
| `SwapSimulator.Simulate` | app/market_data/uniswap_v3/swap_simulator.py:74-163 | the loop terminates and equals the recursive run used in every law below |
| `SwapSimulator.IterateLive` | app/market_data/uniswap_v3/swap_simulator.py:99-142 | every pass keeps the price in its tick's bracket and within the limit, and moves the tick strictly or finishes |
| `SwapSimulator.QuoteFacts` | app/market_data/uniswap_v3/swap_simulator.py:41-163 | price between start and limit, nothing consumed or delivered beyond the request, truthful limit reason, fee at least its share |
| `SwapCrossings.QuoteReports` | app/market_data/uniswap_v3/swap_simulator.py:95-163 | a quote's crossings are exactly the initialized ticks between its two ticks (only unrecorded ones missing when the window ran out); it names no limit iff it was served in full, is exact iff window and state are of one block, and stops early only where the window ends |
| `SwapMonotone.QuoteMonotone` | app/market_data/uniswap_v3/swap_simulator.py:41-54 | a larger exact input never gives less output, consumes less, crosses less or moves the price less |
| `SwapDuality.ServedAgain` | app/market_data/uniswap_v3/swap_math.py:40-96 | paying exactly what an exact-output step charged spends it all, and delivers as much iff the step is covered |
| `SwapDuality.FallbackReached` | app/market_data/uniswap_v3/sqrt_price_math.py:26-31 | the fallback price is at most another iff that price times the fallback denominator covers the liquidity |
| `SwapDuality.QuoteDual` | app/market_data/uniswap_v3/swap_simulator.py:41-71 | paying an exact-output quote's input succeeds and buys at least the quoted output if and only if the quote is covered, decided at the pass that served it |
| `SwapDuality.UpwardCovers` | app/market_data/uniswap_v3/swap_simulator.py:99-142 | a pass that swaps token1 in is always covered |
| `SwapDuality.OverflowBreaksDuality` | app/market_data/uniswap_v3/sqrt_price_math.py:26-31 | a concrete pool and quote that is not covered, where the same input buys strictly less than quoted |
| `SwapConservation.RunConserves` | app/market_data/uniswap_v3/swap_simulator.py:99-142 | over a whole swap, however many ticks are crossed, the pool receives in each token at least what its exact holdings gain |
| `SwapConservation.Tradeoff` | app/market_data/uniswap_v3/sqrt_price_math.py:88-113 | on any liquidity profile, if one token's exact holdings did not rise, the other's did not fall |
| `SwapRoundTrip.RoundTripNeverProfits` | app/market_data/uniswap_v3/swap_simulator.py:41-163 | swapping the output straight back returns at most the input less its fee, for any ticks crossed and any limits |
| `LiquidityAmounts.AmountsOfPosition` | app/market_data/uniswap_v3/liquidity_amounts.py:39-53 | all three price cases are one formula on the price clamped to the range |
| `LiquidityAmounts.Liquidity1Greatest` | app/market_data/uniswap_v3/liquidity_amounts.py:20-22 | the greatest uint128 liquidity whose rounded-up token1 cost is within the amount |
| `LiquidityAmounts.MintAffordable` | app/market_data/uniswap_v3/liquidity_amounts.py:25-53 | the liquidity for amounts always needs, rounded up, at most the offered amounts, in all price cases |
| `LiquidityAmounts.MintNearlyGreatest` | app/market_data/uniswap_v3/liquidity_amounts.py:13-53 | no affordable liquidity exceeds the computed one by more than the rounding of token0's share, and none at all above the range |
| `LiquidityAmounts.MintBurnGap` | app/market_data/uniswap_v3/liquidity_amounts.py:39-53 | a mint charges 0 or 1 raw unit more than the burn returns, per token |
| `PoolLiquidity.UpdateTick` | app/services/mempool/pool_state.py:153-179 | for any tick, changes that tick's record and its bit only, sets the bit iff gross liquidity stays, and fails exactly when gross would go negative |
| `Positions.ApplyLiquidityKeepsMatch` | app/services/mempool/pool_state.py:182-197 | a mint, or a burn within its position, never errs and keeps window and in-range liquidity equal to the sums over positions |
| `Positions.MatchIsProfile` | app/services/mempool/pool_state.py:153-197 | a matching window's net liquidities are the steps of the in-range liquidity, which is what the swap loop reads |
| `PoolWorld.RunNeverFails` | app/market_data/uniswap_v3/swap_simulator.py:126-142 | on a matching pool no swap ever raises an arithmetic error, whatever its liquidity (exact output of token0: up to 128 bits of it), and its price, tick and in-range liquidity stay matched |
| `PoolWorld.EmptyWorldIsSound` | app/services/mempool/pool_state.py:61-66 | a pool without positions starts every run sound |
| `PoolWorld.EveryRunIsSound` | app/services/mempool/pool_state.py:153-197 | over any interleaving of mints, burns and swaps nothing errs, the pool matches its positions and its balances cover them |
| `PoolWorld.EveryPositionWithdraws` | app/services/mempool/pool_state.py:182-197 | after any such run any position burns in full without a balance going negative |
| `PoolWorld.DualOnMatchingPool` | app/market_data/uniswap_v3/swap_simulator.py:41-71 | on a matching pool of at most 128 bits of liquidity the exact-output promise holds upward always, and downward for charges below a bound known beforehand |
| `PoolTracker.StateAfterLogIsFold` | app/services/mempool/pool_state.py:113-127 | for log-ordered events the state after an index is the fold of exactly the events up to it |
| `PoolTracker.StateAfterLog` | app/services/mempool/pool_state.py:113-127 | the loop returns the states recorded by the last step within the index |
| `PoolEvents.AcceptedBlockReads` | app/services/mempool/pool_state.py:276-320 | an accepted block ends with the last Sync's reserves in the configured token order, the last V3 swap's price and tick, its liquidity plus the in-range changes after it, and every tick's gross liquidity plus the changes bound to it; each step holds the states just around its event, a V2 swap's starting before the Sync its own transaction emitted one log earlier |
| `PoolEvents.OwnSyncIsPrevious` | app/services/mempool/pool_state.py:290-301 | in log order that Sync can only be the event right before the swap |
| `PoolEvents.RefusedBlock` | app/services/mempool/pool_state.py:276-281 | a block is a gap iff its number does not follow, a reorg iff it follows but its parent hash differs beyond letter case, and otherwise fails only on a mint or burn |
| `PoolTracker.PoolStateTracker.ApplyBlock` | app/services/mempool/pool_state.py:276-324 | extends by the rolled block, whose states read off its events as `PoolEvents.AcceptedBlockReads` says, or refuses leaving everything as it was; keys increase, states and parent hashes link, size stays bounded |
| `PoolTracker.CompareStates` | app/services/mempool/pool_state.py:206-225 | reports only differences that are there, and none exactly when the states agree wherever both have data |
| `PoolTracker.PoolStateTracker.Anchor` | app/services/mempool/pool_state.py:252-264 | keeps exactly the older entries and adds the anchor, preserving the chain, and reports how the state tracked for that block differed |
| `PoolTracker.PoolStateTracker.RewindTo` | app/services/mempool/pool_state.py:266-268 | keeps exactly the entries up to the number, preserving the chain |
| `PoolTracker.PoolStateTracker.Trim` | app/services/mempool/pool_state.py:326-328 | keeps exactly the newest entries up to the limit |
| `PoolTracker.RewindThenReapply` | app/services/mempool/pool_state.py:266-324 | rewinding past a run and applying it again reproduces the same blocks exactly when the run is shorter than the tracked history |
| `UniswapV2Math.OutIsGreatestAccepted` | app/services/mempool/predictor.py:126-133 | the pair's check accepts an output iff it is positive and at most GetAmountOut |
| `UniswapV2Math.InIsAccepted` | app/market_data/uniswap_v2_math.py:16-21 | GetAmountIn is accepted and is the least accepted input, or one above it exactly when the division is exact |
| `UniswapV2Math.OutOfInCovers` | app/market_data/uniswap_v2_math.py:7-21 | paying the price of an output buys at least that output |
| `UniswapV2Math.InOfOutIsClose` | app/market_data/uniswap_v2_math.py:7-21 | pricing what an input bought asks for at most one unit more than it |
| `UniswapV2Math.OutIsMonotone` | app/market_data/uniswap_v2_math.py:7-13 | a larger input never buys less |
| `Predictor.V2LegRaisesProduct` | app/services/mempool/predictor.py:136-162 | a completed leg of any kind strictly raises the reserve product, a limited one changes nothing |
| `Predictor.V2LegServes` | app/services/mempool/predictor.py:136-162 | a leg is limited exactly when the pair cannot serve it, trades the best amounts the pair's check takes, and moves each reserve by the amount of its own token |
| `Predictor.V3LegServes` | app/services/mempool/predictor.py:64-123 | selling WETH never raises its price and buying never lowers it; a completed leg is served in full unless the router's own limit stopped it there |
| `Predictor.LegKeepsReady` | app/services/mempool/predictor.py:73-123 | a completed V3 leg leaves a state the next leg can start from |
| `Predictor.Predict` | app/services/mempool/predictor.py:232-276 | the loop runs each leg on the state the one before left, keeping the state where a leg is limited |
| `Predictor.ProductNeverFalls` | app/services/mempool/predictor.py:136-162 | over any mixed run of legs the V2 reserves stay positive and their product rises iff some V2 leg completed |
| `Predictor.V2NeverDrained` | app/services/mempool/predictor.py:136-162 | no run lowers both reserves, or one without raising the other |
| `Predictor.V3RunConserves` | app/services/mempool/predictor.py:73-123 | over any run of legs the V3 pool is paid, in each token, at least what its exact holdings gain |
| `Predictor.V3NeverDrained` | app/services/mempool/predictor.py:73-123 | no run of legs, of any kinds, directions and sizes, takes out of the V3 pool in one token without paying in the other |
| `LpPaperBook.InitialErrorIsSmall` | app/execution/lp_paper_book.py:165-168 | the capital rounding is at most half a raw quote unit |
| `LpPaperBook.AccrualReconciles` | app/execution/lp_paper_book.py:239-300 | accrual moves the reconciliation residual from one observation to the next unchanged, for any fees |
| `LpPaperBook.FitLiquidity` | app/execution/lp_paper_book.py:390-402 | the adjustment loop keeps a fitting liquidity at once and never returns one that does not fit |
| `LpPaperBook.AffordableFits` | app/execution/lp_paper_book.py:386-395 | the liquidity the book computes always fits its balances, so the loop never adjusts and the fallback note is never set |
| `LpPaperBook.RebalanceLosesDust` | app/execution/lp_paper_book.py:311-449 | a rebalance lowers the residual by exactly the value of 0 or 1 raw unit of each token |
| `LpPaperBook.SwapChoice` | app/execution/lp_paper_book.py:335-360 | sells the token held beyond the target range's share of the value, only when by more than a millionth of it, and the greatest raw amount worth no more than the excess and the balance |
| `LpPaperBook.Book.SwapTowardRatio` | app/execution/lp_paper_book.py:335-372 | makes exactly that swap, fails iff its simulation fails, and is skipped iff there is nothing to value or the simulation hits a limit |
| `LpPaperBook.StateReports` | app/execution/lp_paper_book.py:451-525 | the reported PnL is what the balances are worth beyond the capital, and splits into fees, IL, HODL, swap and gas up to the reported error; the status is the tick's place in the range |
| `LpPaperBook.Book.Rebalance` | app/execution/lp_paper_book.py:311-449 | commits the fitting swap in full, the real costs and gas, and a mint, moving every token and total as the event says; fails iff the swap simulation fails; is skipped, changing only the note, iff there is no window, nothing to value, a limited swap or no liquidity to mint |
| `LpPaperBook.Book.Step` | app/execution/lp_paper_book.py:120-161 | on every observation the reported error is the capital rounding minus the dust of exactly the rebalances made; it rebalances, skips or fails exactly as the accrued ledger, the decision and the window say; a step that errs leaves its interval accrued but not closed |
| `LpPaperBook.ErrorBounds` | app/execution/lp_paper_book.py:451-475 | after any rebalances the error is at most half a raw quote unit up, and that plus one raw unit of each token per rebalance down |
| `LpPaperBook.ErrorWithinPromise` | app/execution/lp_paper_book.py:451-475 | the error stays within 0.01% of capital whenever that is worth those units |
| `LpPaperBook.OpeningDoesNotReconcile` | app/execution/lp_paper_book.py:311-449 | a concrete opening with exactly representable capital after which the residual is one raw quote unit |
| `LpPaperBook.AccruedTwice` | app/execution/lp_paper_book.py:239-300 | accruing one interval twice lowers the residual by the price move of the base held |
| `LpPaperBook.Book.GetCheckpoint` | app/execution/lp_paper_book.py:113-114 | saves the book together with the rebalances made so far |
| `LpPaperBook.Book.Restore` | app/execution/lp_paper_book.py:116-118 | from whatever state, a checkpoint this book gave brings back the reconciled book and exactly the rebalances made until then |
| `LpPaperBook.StepAndGoBack` | app/services/market_maker_loop.py:516-518 | checkpoint, step and restore leave ledger, state and rebalances as they were, even when the step failed half way |
| `CashAccount.InventoryTracker.ApplyFill` | app/analytics/inventory.py:57-86 | a fill is taken iff the balance covers it; a bid adds its notional to the entry cost and realizes nothing, an ask realizes its price over the entry price and keeps that price until the base is gone; both pay the fee |
| `CashAccount.FillKeepsBasis` | app/analytics/inventory.py:57-86 | quote plus entry cost of the base, less realized profit, plus fees, is unchanged by any fill, taken or refused |
| `CashAccount.RunBooks` | app/analytics/inventory.py:57-86 | over any fills, balances, realized PnL and fees move by exactly what the accepted ones booked, and bids alone realize nothing |
| `CashAccount.PnlOverRun` | app/analytics/pnl.py:8-29 | after any run of fills total PnL at any mid is what liquidating there would gain over the initial balance |
| `RiskLimits.FilterQuotesByPositionLimit` | app/risk/limits.py:10-48 | the loop approves each quote after reserving for those approved before it |
| `RiskLimits.ApprovedIsCovered` | app/risk/limits.py:20-46 | the approved bids' cost with fees fits the quote balance and the approved asks' size the base balance, together |
| `RiskLimits.ApprovedOneMore` | app/risk/limits.py:27-46 | one more offered quote is approved iff, on top of those approved before it, the projected position stays within both caps and its side within the balance |
| `RiskLimits.ApprovedFits` | app/risk/limits.py:27-46 | the running projection stays within both caps at every approved quote |
| `FillModels.DetectFills` | app/execution/fill_model.py:60-136 | every quote meets the book as its fill mode says, gets at most one fill and never more than its size |
| `FillModels.FillsWhenReached` | app/execution/fill_model.py:30-135 | a bid fills only at a best ask at or below its price and an ask only at a best bid at or above it, in each mode's exact conditions and size, at its own price and the fee in basis points |
| `FillModels.ShareTrade` | app/execution/trade_fill.py:34-51 | a trade fills only quotes it reaches, never more than it printed, earlier quotes first, and is used up while any reached quote has size left |
| `FillModels.ShareTrades` | app/execution/trade_fill.py:31-51 | each trade is shared out of what the earlier ones left, and no quote gives more than its size |
| `FillModels.DetectTradeFills` | app/execution/trade_fill.py:23-70 | each quote's one fill is the total of its shares |
| `PaperBroker.BookAllCovered` | app/execution/paper_broker.py:124-155 | on covered quotes no fill is refused, balances stay non-negative and what stays open stays covered |
| `PaperBroker.BookedIsListed` | app/execution/paper_broker.py:128-133 | what is booked for a quote is exactly the fill detected for it |
| `PaperBroker.LeftoversAre` | app/execution/paper_broker.py:131-155 | a quote without a fill stays as it is, one with a fill stays for exactly the size not filled with a fresh streak, or is gone; nothing else is open |
| `PaperBroker.SurvivorsAndPlaced` | app/execution/paper_broker.py:157-174 | in latency mode exactly the crossed quotes survive, otherwise none, and new ones are placed exactly on the sides without a survivor |
| `PaperBroker.SubmitStaysCovered` | app/execution/paper_broker.py:157-174 | crossed quotes kept in latency mode plus newly placed ones stay covered |
| `PaperBroker.Broker.BookFills` | app/execution/paper_broker.py:124-155 | books every fill in quote order as the account's run of fills, leaves open of each quote exactly what its fill left, and keeps the broker covered |
| `PaperBroker.Broker.ApplyFills` | app/execution/paper_broker.py:100-116 | detects and books book-crossing fills, keeping the broker covered |
| `PaperBroker.Broker.ApplyTradeFills` | app/execution/paper_broker.py:118-122 | detects and books trade-driven fills, keeping the broker covered |
| `PaperBroker.Broker.SubmitQuotes` | app/execution/paper_broker.py:157-174 | open quotes become the kept ones plus those placed on free sides; covered when the balances cover what is offered |
| `PaperBroker.Broker.Requote` | app/risk/limits.py:10-48 | the filter's reservations are enough for submitting to stay covered |
| `PaperBroker.Broker.RestoreCheckpoint` | app/execution/paper_broker.py:81-98 | restores the saved account and quotes; what was covered when saved is covered again |
| `GaussianSolver.FindPivot` | app/services/testnet/calibration.py:122 | the loop finds the first row with the largest entry of the column |
| `GaussianSolver.EliminateColumn` | app/services/testnet/calibration.py:125-129 | the swap and the clearing loops compute one column step of the elimination function |
| `GaussianSolver.ColumnStepKeeps` | app/services/testnet/calibration.py:125-129 | a column step keeps exactly the same solutions, clears the column and leaves a usable pivot |
| `GaussianSolver.ReduceKeeps` | app/services/testnet/calibration.py:121-129 | elimination keeps the solutions, and stops early only at a column whose candidates are all below the floor |
| `GaussianSolver.BackSubstitute` | app/services/testnet/calibration.py:130-133 | solves every reduced system with usable pivots |
| `GaussianSolver.Solve` | app/services/testnet/calibration.py:117-133 | an answer is the one and only solution of the original system; there is none if and only if eliminating this very system runs out of pivots |
| `GaussianSolver.ZeroPivotHasNoSingleSolution` | app/services/testnet/calibration.py:122-124 | when the column elimination stopped at is exactly zero, any solution has another beside it |
| `GaussianSolver.TinyPivotIsRefused` | app/services/testnet/calibration.py:123-124 | any single equation with a non-zero coefficient below the floor has one solution and is refused |
| `GaussianSolver.RefusedBelowFloor` | app/services/testnet/calibration.py:123-124 | a single equation is refused iff its coefficient is below the floor, which is exactly 10^-300 |
| `GaussianSolver.RefusedThoughSolvable` | app/services/testnet/calibration.py:123-124 | a concrete system with one solution that is refused |
| `ArbScanner.BestSize` | app/services/dex_arb_scanner.py:74-91 | the loop computes the search function, and fails exactly on an empty range |
| `ArbScanner.LegsSettle` | app/services/dex_arb_scanner.py:40-66 | in both directions the V3 pool and the pair each take their leg of the same size in full, WETH is passed on whole, and the profit is the change of USDC |
| `ArbScanner.SearchRange` | app/services/dex_arb_scanner.py:76-79 | sizes are searched from 1 USDC or 0.001 WETH to a quarter of the reserve |
| `ArbScanner.SearchFindsPeak` | app/services/dex_arb_scanner.py:80-91 | on every profit that strictly rises and then never rises the result is the peak |
| `ArbScanner.SearchMaximisesConcave` | app/services/dex_arb_scanner.py:3-7 | with diminishing returns and a flat floor beyond the quotable sizes, no size beats the result |
| `ArbScanner.CapNeverReached` | app/services/dex_arb_scanner.py:80-82 | for 112-bit reserves 189 passes bring the width to 2, so the limit of 200 never cuts the search short |
| `ArbScanner.SearchNearlyMaximises` | app/services/dex_arb_scanner.py:80-91 | when the profit is within an error of one with diminishing returns, no size beats the result by more than twice the error per pass, and once more |
| `ArbScanner.RoundingMissesTheBest` | app/services/dex_arb_scanner.py:40-91 | a concrete market, both legs quoted in full, where the search over the program's own range returns a size with less profit than another |

## Left out

- Floating point: prices, cash and matrix entries are real numbers, so rounding of floats is not modelled.
- Input and output of every kind: RPC, exchanges, databases, the API, the dashboard, clocks, and the watcher's scheduling.
- Human prices, logarithms and price impact: a snapshot's price is any positive real.
- Range choice, cooldown and drift rules of the LP strategy: the decision and the target ticks are parameters of a step.
- Fee growth: the fees an accrual credits are any non-negative amounts; the time in range and the pool share are not modelled.
- The calibrated fill chance and the hashed draws are one boolean per quote.
- Open quotes are values: the streak and evaluation time that fill detection updates in place become a new list of quotes.
- Matrix rows are values inside the solver's own list; the caller's matrix is therefore never changed.
- SwapSimulator.Simulate: starts from a price inside its tick's bracket, as every pool state has; the code does not check it.
- Predictor.Predict: expiry and revert flags, the router's amount limits, price gaps and the scan before and after are not modelled.
- Predictor.V2NeverDrained: speaks of each pool alone; across the two pools arbitrage can profit, which is what the program looks for.
- Values in V3 Swap and V2 Sync events are taken as given and not compared with the simulator.
- RiskLimits.ApprovedIsCovered: position caps under an arbitrary subset of fills are not claimed, since the running projection does not ensure them.
- PaperBroker.Broker.SubmitQuotes: quotes carry their ids; random ids for unnamed quotes are not modelled.
- FillModels.DetectFills: requires positive sizes and unique ids, which the broker keeps.
- Newton fitting, likelihoods and reports around the solver.
- PoolWorld.EveryRunIsSound: exact output of token0 is asked for only while total liquidity is within 128 bits, which the protocol enforces; fees are left out of the balances and would only add to them.
- PoolTracker.CompareStates: which differing tick is named first depends on the order of a dictionary and is left open.
- PoolEvents.AcceptedBlockReads: reads off gross liquidity; bits and net liquidity are stated change by change in `PoolLiquidity.UpdateTick`, and over runs in `Positions`.
- ArbScanner.RoundingMissesTheBest: a simulation error inside a profit counts as a size that cannot be quoted, where the program would stop with the error.
- ArbScanner.SearchNearlyMaximises: how close the profit of the two legs is to a concave one is not bounded here.
