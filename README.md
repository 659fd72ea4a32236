# Velocity backtest, option strikes and the retry queue: a Dafny model

This project models four sequential pieces of a trading toolkit and proves their properties in Dafny.

- **The sliding-window extremum tracker** (`velocity/possible_extrema.py`, module `Extrema`).
  - `PossibleExtrema` keeps a monotonic deque of time indices in a circular array of `window + 1` slots.
  - Each `insert(ix)` evicts at most one expired front candidate.
  - It then binary-searches (`_rec_find`) for the leftmost stored candidate that the new value beats under the strict comparison `compfn`.
  - It writes `ix` into that slot and drops everything after it. It answers how many steps ago the best value of the trailing window occurred.
  - The model is a class over an `array<int>`, with `begin` and `size` updated in place.
  - Two ghost fields carry the proof: `Contents`, the live candidates front first, and `Newest`, the last index inserted.
  - The tracker is proved against a brute-force reference, `OldestBest`: the oldest position of the best value of `data[ix - window .. ix]`. So the tracker returns exactly `ix - OldestBest(...)`, which lies in `[0, window]`.
  - The module `ExtremaFixtures` replays the repository's two unit tests on the model.
- **Reversal detection and trade accounting** (`velocity/backtest.py`, module `Backtest`).
  - `reversals` emits alternating Buy/Sell events at strict crossovers of the up and down velocities.
  - `_sim_eq` trades a fixed investment on those events. It tallies buys, triggered sells, money invested, proceeds and days at risk, and cashes out a position still open at the last row.
  - `simulate` derives total profit and years at risk.
  - Each loop is a method proved equal to a recursive function: the reversal loops, the event loop and the loop over equities in `simulate`. The accounting invariants are lemmas about those functions.
- **Strike utilities** (`options/spreads/strike.py`, module `Strike`).
  - `straddle` picks the strike or strikes nearest the underlying price.
  - `_matching` and `_nextsynchronized` walk the call and put strike lists in lock-step.
- **The retry queue** (`options/db/trackqueue.py`, module `JobQueue`).
  - `TrackQueue` moves jobs between a FIFO queue and a single waiting slot.
  - A failed job comes back with an exponential back-off until its retries run out.

Inputs the model takes as parameters:
- the clock (`now`, local New York time in minutes);
- the production flag;
- the velocity frames that `simulate` fetches and computes.

A velocity row is `(date, price, up, down)`, with the date as a day number. Prices, strikes and velocities are reals.

## Model

| member | source | states |
|---|---|---|
| Extrema.WindowStart | velocity/possible_extrema.py:30-33 | the trailing window of `i` starts at most `window` positions back, exactly `window` once `i >= window` |
| Extrema.OldestBest | velocity/possible_extrema.py:48 | the brute-force answer of a range `[lo, hi]` is a position inside it |
| Extrema.OldestBestIsOldestBest | velocity/possible_extrema.py:64-72 | the brute-force answer beats every earlier position of the range and is not beaten by any later one: ties resolve to the oldest position because `compfn` is strict |
| Extrema.OldestBestUnique | velocity/possible_extrema.py:64-72 | any position with that property is the brute-force answer |
| Extrema.CandidatesInData | velocity/possible_extrema.py:39-53 | stored candidates lie in the window, strictly after the front, and the newest index is the last candidate |
| Extrema.CandidatesMonotone | velocity/possible_extrema.py:58-72 | no candidate is beaten by one stored after it, which is what makes the binary search sound |
| Extrema.CandidatesFront | velocity/possible_extrema.py:48 | the front candidate is the brute-force extremum of the window |
| Extrema.CandidatesCount | velocity/possible_extrema.py:30-33 | a window of `n` positions holds at most `n` candidates |
| Extrema.FirstBeaten | velocity/possible_extrema.py:58-72 | the insertion position: every candidate before it is not beaten by `data[x]`, the one at it is |
| Extrema.Beats | velocity/possible_extrema.py:64-70 | `compfn`: strict greater-than for highs and strict less-than for lows, so a value equal to a stored one never displaces it; `OldestBestUnique` and `CandidatesFront` use it to give the oldest extremum |
| Extrema.Evict | velocity/possible_extrema.py:41-45 | step 1 of `insert` on the candidate list, front first: the front leaves when it is `window + 1` or more steps old; what that keeps is stated by `EvictShape` |
| Extrema.EvictShape | velocity/possible_extrema.py:41-45 | eviction removes at most the front candidate, and it removes it exactly when the front is `slots` or more steps old |
| Extrema.Append | velocity/possible_extrema.py:46-52 | steps 2 to 4 of `insert` on the candidate list: the candidates before the first one `data[ix]` beats are kept and `ix` goes last; stated by `AppendShape` |
| Extrema.AppendShape | velocity/possible_extrema.py:46-52 | the result keeps a prefix of the candidates, none of which `data[ix]` beats, ends with `ix`, and the first dropped candidate is beaten by `data[ix]` |
| Extrema.Advance | velocity/possible_extrema.py:39-53 | the candidate list after one `insert`: eviction, then appending; stated by `AdvanceShape` and `AdvanceKeepsCandidates` |
| Extrema.AdvanceShape | velocity/possible_extrema.py:39-53 | after one insert `ix` is the last candidate and the list grows by at most one |
| Extrema.BeatenFrom | velocity/possible_extrema.py:70-72 | on a monotone list, `data[x]` beats candidate `j` exactly when `j` is at or after the insertion position |
| Extrema.EvictKeepsCandidates | velocity/possible_extrema.py:41-45 | evicting the front when it is `window + 1` or more steps old leaves the candidate list of the moved window, with at most `window` entries |
| Extrema.DropExpiredFront | velocity/possible_extrema.py:43-45 | an expired front is never the only candidate, and the rest is the candidate list of the moved window |
| Extrema.KeepLiveFront | velocity/possible_extrema.py:43 | a front still in the window keeps the list valid for the moved window |
| Extrema.AppendKeepsCandidates | velocity/possible_extrema.py:46-52 | dropping every candidate the new index beats and appending it gives the candidate list of the window that ends at the new index |
| Extrema.AppendAfterKept | velocity/possible_extrema.py:47-52 | a front the new value does not beat stays in front of the appended list |
| Extrema.KeptCandidate | velocity/possible_extrema.py:64-70 | a candidate the new value does not beat stays the oldest best of its stretch |
| Extrema.NewCandidate | velocity/possible_extrema.py:64-70 | a new value that beats the best of a stretch becomes the oldest best of the extended stretch |
| Extrema.AdvanceKeepsCandidates | velocity/possible_extrema.py:39-53 | one insert turns the candidate list of window `ix - 1` into that of window `ix`, at most `window + 1` long, with the brute-force extremum in front |
| Extrema.StepKeepsCandidates | velocity/possible_extrema.py:39-53 | the same for every insert, including the first, and the answer `ix - front` lies in `[0, window]` |
| Extrema.FirstCandidates | velocity/possible_extrema.py:40-52 | the first insert leaves exactly index 0 as the candidate list |
| Extrema.RisingHighIsNewest | velocity/possible_extrema.py:48 | on a strictly rising series the window high is the newest position, so `insert` answers 0 |
| Extrema.FallingHighIsOldest | velocity/possible_extrema.py:48 | on a strictly falling series the window high is the oldest position, so `insert` answers `min(ix, window)` |
| Extrema.StrictlyFallingFrom | velocity/possible_extrema.py:48 | along a strictly falling stretch no later value exceeds the first |
| Extrema.HoldsPop | velocity/possible_extrema.py:43-45 | the front slot holds the front candidate, and the rest is held from the next slot on, circularly |
| Extrema.HoldsWrite | velocity/possible_extrema.py:47-52 | writing one slot replaces the candidate there and drops all later ones; the other slots keep their stale contents |
| Extrema.PossibleExtrema.constructor | velocity/possible_extrema.py:13-37 | `window + 1` zeroed slots, `begin = 0`, `size = 0`, no candidates |
| Extrema.PossibleExtrema.Find | velocity/possible_extrema.py:55-56 | `_find` answers the slot of the insertion position within the live stretch |
| Extrema.PossibleExtrema.RecFind | velocity/possible_extrema.py:58-72 | `_rec_find`, with its floor halving, the wrap modulo `window + 1` and the one-past-the-end answer of the base case; it always answers a slot of the buffer, and which one is stated by `RecFindFindsFirstBeaten` |
| Extrema.PossibleExtrema.RecFindFindsFirstBeaten | velocity/possible_extrema.py:58-72 | `_rec_find` over `length` slots from the slot of logical position `offset` answers the slot of the insertion position, clamped to the searched stretch: one past the last live slot when nothing is beaten |
| Extrema.PossibleExtrema.RecFindLeftHalf | velocity/possible_extrema.py:68-71 | the same when the middle candidate is beaten and the search continues in the first `length / 2` slots (floor division) |
| Extrema.PossibleExtrema.RecFindRightHalf | velocity/possible_extrema.py:68-72 | the same when the middle candidate is not beaten and the search continues from the middle slot |
| Extrema.PossibleExtrema.EvictExpired | velocity/possible_extrema.py:41-45 | the front leaves exactly when it is `window + 1` or more steps old; `begin` then moves one slot circularly |
| Extrema.PossibleExtrema.Locate | velocity/possible_extrema.py:40-46 | the slot `ix` is written to: `begin` for an empty tracker, otherwise the found slot after eviction |
| Extrema.PossibleExtrema.Place | velocity/possible_extrema.py:47-52 | only `indices[insert_at]` is written; `size` becomes the circular distance from `begin` plus one; the answer is `ix - indices[begin]` |
| Extrema.PossibleExtrema.Insert | velocity/possible_extrema.py:39-53 | for indices fed as 0, 1, 2, ...: the answer equals `ix` minus the oldest position of the best value of the last `window + 1` positions and lies in `[0, window]`; at most the expired front is evicted; exactly one slot is written; `1 <= size <= window + 1` |
| ExtremaFixtures.FirstInsert | velocity/possible_extrema.py:40-53 | the first insert answers 0 and leaves `begin = 0`, `size = 1`, index 0 in slot 0 |
| ExtremaFixtures.VelocitySeries | velocity/tst/test_possible_extrema.py:35-39 | feeding every index to a fresh tracker yields, at each step, the brute-force velocity, within `[0, window]` |
| ExtremaFixtures.FillFalling | velocity/tst/test_possible_extrema.py:21-26 | three falling highs in a window of 2 fill the three slots in order |
| ExtremaFixtures.OverflowFixture | velocity/tst/test_possible_extrema.py:20-28 | the fourth insert ends with `begin = 1` and `indices = [3, 1, 2]` |
| ExtremaFixtures.OutputFixture | velocity/tst/test_possible_extrema.py:30-40 | the tracker reproduces the expected velocity series of the window-3 test |
| ExtremaFixtures.ExpectedFrom0 | velocity/tst/test_possible_extrema.py:32-33 | the brute-force velocities at steps 0-3 are the expected ones |
| ExtremaFixtures.ExpectedFrom4 | velocity/tst/test_possible_extrema.py:32-33 | the same at steps 4-7 |
| ExtremaFixtures.ExpectedFrom8 | velocity/tst/test_possible_extrema.py:32-33 | the same at steps 8-11 |
| ExtremaFixtures.ExpectedFrom12 | velocity/tst/test_possible_extrema.py:32-33 | the same at steps 12-15 |
| ExtremaFixtures.ExpectedFrom16 | velocity/tst/test_possible_extrema.py:32-33 | the same at steps 16-19, where the tie at 0.4 keeps the oldest position (3, not 1, at step 17) |
| Backtest.InitialTrend | velocity/backtest.py:120-130 | the initial trend is bullish unless the first row whose velocities differ has `up < down` |
| Backtest.TrendFrom | velocity/backtest.py:120-130 | the trend is bearish only when some row from `i` on has `up < down`, and bullish when every row from `i` on ties |
| Backtest.EmitFrom | velocity/backtest.py:132-141 | the emission loop from row `i` with the trend so far; `EmitFromRows`, `EmitFromIncreasing` and `EmitFromAlternates` prove its events sound (strict crossings of their own rows, increasing, alternating) and `EmitFromComplete` proves it misses none |
| Backtest.Reversals | velocity/backtest.py:119-142 | `reversals` returns exactly the events of the emission function from that trend |
| Backtest.EmitFromRows | velocity/backtest.py:132-141 | each event carries the index, date and price of its own row, which is a strict crossover: a Sell with `up < down`, a Buy with `up > down` |
| Backtest.EmitFromIncreasing | velocity/backtest.py:132-141 | events come in strictly increasing row order, so each row emits at most once |
| Backtest.EmitFromAlternates | velocity/backtest.py:132-141 | consecutive events never share an action, and the first one leaves the trend it starts in |
| Backtest.ReversalsWellFormed | velocity/backtest.py:119-142 | the events of `reversals` are from their rows, strict, increasing and alternating |
| Backtest.ReversalsOf | velocity/backtest.py:119-142 | what `reversals` returns: the emission loop from row 0 with the initial trend; its events are sound by `ReversalsWellFormed` and complete by `ReversalsComplete` |
| Backtest.EmitFromQuietStart | velocity/backtest.py:132-141 | no row before the first event (all rows, when there is none) crosses against the starting trend |
| Backtest.EmitFromQuietBetween | velocity/backtest.py:132-141 | no row strictly between two consecutive events crosses against the trend the earlier one set: after a Sell every row has `up <= down`, after a Buy `up >= down` |
| Backtest.EmitFromQuietEnd | velocity/backtest.py:132-141 | no row after the last event crosses against the trend it set |
| Backtest.EmitFromComplete | velocity/backtest.py:132-141 | the three together: every row that crosses against the trend of the moment emits an event |
| Backtest.ReversalsComplete | velocity/backtest.py:119-142 | `reversals` misses no crossing: before the first event no row crosses against the initial trend, and between and after events no row crosses against the trend the last event set |
| Backtest.TiesEmitNothing | velocity/backtest.py:132-141 | rows with `up == down` never emit |
| Backtest.AllTiesNoReversals | velocity/backtest.py:120-142 | when every row ties, there are no events |
| Backtest.TrendIsFirstDifference | velocity/backtest.py:125-130 | the first loop's trend is that of the first row whose velocities differ |
| Backtest.EmitSkipsQuiet | velocity/backtest.py:132-141 | rows up to and including that first differing row emit nothing |
| Backtest.FirstEvent | velocity/backtest.py:125-141 | the first event is a Sell exactly when the first differing row has `up > down`, and it comes after that row |
| Backtest.Proceeds | velocity/backtest.py:109-116 | the proceeds of a sale: `r × buy = investment × sell`, the value of `investment` bought at `buy` and sold at `sell` |
| Backtest.Trades | velocity/backtest.py:97-111 | the event loop leaves any open position with a positive buy price |
| Backtest.Trade | velocity/backtest.py:98-111 | a Buy holds the position at the event's price and date and changes only Buy Count (up by one) and Total Invested (up by the investment); after a Sell the position is flat and Buy Count and Total Invested are unchanged; a Sell while flat changes nothing; a Sell on an open position adds one to Triggered Sell Count, the proceeds `investment × sell / buy` to Total Sales and the days since the buy to Days at Risk, and changes nothing else; profit and years are never touched |
| Backtest.CloseOut | velocity/backtest.py:112-117 | the cash-out never changes Buy Count, Triggered Sell Count, Total Invested, profit or years, and does nothing when flat |
| Backtest.ApplyEvent | velocity/backtest.py:98-111 | one pass of the event loop: a Buy always (re)opens and is counted; a Sell closes an open position, adding proceeds, one triggered sell and the days held; a Sell while flat does nothing |
| Backtest.TradeEvents | velocity/backtest.py:91-111 | the loop over all events, starting flat |
| Backtest.SimEquity | velocity/backtest.py:83-117 | `_sim_eq`: reversals, then the event loop, then the cash-out at the last row; a frame whose computation raised ValueError leaves the tally unchanged |
| Backtest.TradesBalanced | velocity/backtest.py:98-111 | the event loop adds to Total Invested the investment times the buys it adds; triggered sells plus the open position never exceed buys; profit and years are untouched |
| Backtest.SellWhileFlat | velocity/backtest.py:105 | a Sell with no open position changes nothing |
| Backtest.EquityOutcome | velocity/backtest.py:83-117 | `_sim_eq` on one equity: the event loop over `reversals` from flat, then the cash-out at the last row; an equity whose velocities raised ValueError leaves the result as it was; its balance is stated by `EquityBalanced` |
| Backtest.EquityBalanced | velocity/backtest.py:84-117 | the same for a whole equity, and an equity whose velocities raised ValueError changes nothing |
| Backtest.ForcedClose | velocity/backtest.py:112-117 | a position open at the end is sold at the last row's price and date: Total Sales and Days at Risk grow, Triggered Sell Count does not |
| Backtest.Finalize | velocity/backtest.py:77-78 | Total Profit = Total Sales - Total Invested and Years at Risk = Days at Risk / 365.25, nothing else changes |
| Backtest.Zero | velocity/backtest.py:57-71 | the result dictionary as created: every count and total zero; over all equities from it, `OutcomesBalanced` gives Total Invested = investment × Buy Count |
| Backtest.Outcomes | velocity/backtest.py:73-76 | `_sim_eq` applied to each equity in turn; its balance is stated by `OutcomesBalanced` and `Simulate` computes it |
| Backtest.OutcomesBalanced | velocity/backtest.py:73-76 | over all equities in turn, Total Invested = investment × Buy Count and Triggered Sell Count ≤ Buy Count |
| Backtest.Simulate | velocity/backtest.py:57-78 | the result is exactly `_sim_eq` applied to each equity in turn from the zeroed result, completed by lines 77-78; so Total Invested = investment × Buy Count, Triggered Sell Count ≤ Buy Count, and profit and years follow from the totals |
| Strike.Straddle | options/spreads/strike.py:8-18 | `[]` for no strikes, else one or two strikes drawn from the list; `[first]` when the first strike is at or above the price; `[last]` when the price is above all; two exactly for an exact tie between the first strike at or above the price and the one below, lower first; on an ascending list every answer is a nearest strike |
| Strike.NearestAbove | options/spreads/strike.py:10-12 | the first strike at or above the price is nearest unless the one below is strictly closer |
| Strike.NearestBelow | options/spreads/strike.py:13-15 | the strike below is nearest when it is at least as close |
| Strike.NearestLast | options/spreads/strike.py:16-17 | the last strike is nearest when the price is above all strikes |
| Strike.Skip | options/spreads/strike.py:43-50 | one inner loop of `_nextsynchronized`: the first position from `k` on whose strike is at least `x`, every strike skipped being below `x`, or the list's length |
| Strike.NextPair | options/spreads/strike.py:38-51 | `_nextsynchronized` as a function: the sentinel `(ncall, nput)` or a pair strictly after its inputs |
| Strike.NextSynchronized | options/spreads/strike.py:38-51 | either the sentinel `(ncall, nput)`, always once either list has no strike after its index (the guard of line 41), or indices strictly after the inputs with `putstrikes[iput] >= callstrikes[icall]`; the calls and puts it skipped are below the strike it stopped at; identical lists advance both by one; and it answers exactly `NextPair` |
| Strike.MatchFromPicked | options/spreads/strike.py:31-36 | the strikes collected from `(icall, iput)` on are call strikes at strictly increasing positions after `icall` |
| Strike.MatchFromBounded | options/spreads/strike.py:31-36 | from `(icall, iput)` on, no more strikes are collected than either list has left |
| Strike.MatchFromIdentical | options/spreads/strike.py:31-51 | on two identical lists, every strike after the start is collected |
| Strike.MatchFrom | options/spreads/strike.py:25-36 | what `_matching` collects from the state `(icall, iput)` on: only call strikes |
| Strike.Matching | options/spreads/strike.py:25-36 | `_matching` collects exactly what `MatchFrom` says from `(-1, -1)`: it terminates with call strikes at strictly increasing positions, at most `min(ncall, nput)` of them, none if a list is empty, the whole list when both lists are the same |
| Strike.MatchingMissesCommonStrike | options/spreads/strike.py:43-51 | on calls `[1, 5, 6]` and puts `[3, 6]` the code collects `[5]`, while the strikes both lists share are `[6]` |
| Strike.CommonMembers | options/spreads/strike.py:25-36 | a strike is among the shared strikes exactly when both lists have it |
| Strike.CommonIsIntersection | options/spreads/strike.py:25-36 | the same for every strike at once |
| Strike.NextSynchronizedCorrected | options/spreads/strike.py:38-51 | corrected: either the sentinel, or a pair strictly after its inputs whose call and put strikes are equal; on strictly ascending lists no shared strike is skipped |
| Strike.MatchingCorrected | options/spreads/strike.py:25-36 | corrected: every strike collected is listed by both lists; on strictly ascending lists the result is exactly the shared strikes, in order, so a strike is collected exactly when both lists have it |
| Strike.PickedAscending | options/spreads/strike.py:25-36 | on strictly ascending call strikes the result is strictly ascending |
| JobQueue.HourOf | options/db/trackqueue.py:63 | the hour of a local time is in `[0, 24)` |
| JobQueue.RetryLimit | options/db/trackqueue.py:28 | a failed job may be retried at least once in either mode, and more often in production |
| JobQueue.Pow3 | options/db/trackqueue.py:78 | a power of 3 is at least 1 |
| JobQueue.WaitTime | options/db/trackqueue.py:77-78 | the back-off is 3^n minutes, at least one minute |
| JobQueue.WaitTimeGrows | options/db/trackqueue.py:77-78 | the back-off grows strictly with the retry count |
| JobQueue.Retried | options/db/trackqueue.py:59-61 | a retried job has one more retry, the same entry, and starts one back-off after `now` |
| JobQueue.Requeued | options/db/trackqueue.py:43-69 | `ack` requeues nothing when nothing waits, after success, at the retry limit, or when the retry would start at hour 12 or earlier; otherwise exactly the retried job, whose retry count stays within the limit |
| JobQueue.TrackQueue.constructor | options/db/trackqueue.py:22-28 | an empty queue with nothing waiting and a retry limit of 4 in production, 1 otherwise |
| JobQueue.TrackQueue.Enqueue | options/db/trackqueue.py:30-35 | one job with 0 retries and start time `now` is appended; nothing else changes |
| JobQueue.TrackQueue.Pop | options/db/trackqueue.py:71-75 | with jobs queued and none waiting, the front job becomes the waiting one and is returned; otherwise `None` and nothing changes |
| JobQueue.TrackQueue.Ack | options/db/trackqueue.py:43-69 | afterwards nothing waits; the queue gains exactly what `Requeued` says; with nothing waiting the queue is unchanged; the job count never grows; retry counts stay within the limit |
| JobQueue.RetryOnceFixture | options/db/trackqueue.py:22-75 | outside production a job failing at 14:00 is requeued to 14:03 with one retry, and abandoned at its second failure |

## Left out

- Logging and `print` (velocity/backtest.py:74,87,89,113; the logger calls of options/db/trackqueue.py): output only.
- `simulate` lines 79-80: the annualised return comes from a foreign library. Line 79 also divides by Total Invested, which is zero when no Buy occurred.
- `pn.data.get` (velocity/backtest.py:75) is a network fetch. `velo.rolling_vel` (velocity/backtest.py:85) is not part of this model. Both are replaced by an input per equity: the velocity frame, or `None` when its computation raised ValueError.
- Floating point: prices, proceeds, the 365.25 scaling and strike distances are reals, so rounding is not modelled.
- The clock and the timezone: `now` is a parameter in local New York minutes, and `HourOf` reads the hour from it. Daylight-saving transitions are not modelled.
- `TrackQueue.ask` (options/db/trackqueue.py:37-41) is unfinished and falls through to `None`.
- Jobs are values: in the source, the dictionary `pop` returns is the same object that `ack` later mutates. That aliasing is not modelled.
- `matchedforexp` (options/spreads/strike.py:20-23) reads an option chain frame.
- Extrema.PossibleExtrema.constructor: requires `window >= 1`, since the window is a positive number of sessions. The degenerate window of 0, where every insert answers 0, is not modelled.
- Extrema.PossibleExtrema.Insert: requires the indices to arrive as 0, 1, 2, .... `insert` evicts at most one expired front per call (velocity/possible_extrema.py:43-45), which keeps the buffer inside the window only when each index is one more than the last. Other orders are not modelled.
- Extrema.PossibleExtrema.Find: `_find` is called only while the tracker is non-empty. After an eviction that holds because an expired front is never the only candidate (`DropExpiredFront`).
- Backtest.SimEquity: requires a non-empty frame, because line 89 reads the first date and raises IndexError on an empty one. It also requires positive prices, because the source divides proceeds by the buy price.
- Backtest.SimEquity: a Buy while already invested is not ignored. It re-buys at the new price and counts as a new buy and a new investment, exactly as lines 98-104 do.
- Strike.Matching: not proved to compute the strikes both lists share, because as written it does not (see Findings). The corrected members are proved to.
- Python 2 division: `length / 2` in `_rec_find` is floor division, as `l / 2` on integers in Python 2.

## Findings

| source | as written | input that shows it | evidently intended | confidence | as-written member | corrected member |
|---|---|---|---|---|---|---|
| options/spreads/strike.py:43-51 | `_nextsynchronized` returns as soon as the put strike is at least the call strike, without checking that the two are equal | calls `[1, 5, 6]`, puts `[3, 6]`: `_matching` returns `[5]`, a strike no put has, and misses `6` | `_matching` returns the strikes both lists share, here `[6]`: the lower strike is skipped until the two are equal | medium, not executed | Strike.MatchingMissesCommonStrike | Strike.MatchingCorrected |
