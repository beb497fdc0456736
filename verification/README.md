# Verification model of omni

This project models the parts of omni whose correctness is hardest to see by reading: selecting and
blending assets, pricing a two-market position against live order books, admitting credential attempts,
firing alerts and delivering their notifications, paging through claims, and publishing the call ledger.
Each component is written in the form of the code it models (loops and classes where the code updates
state, functions where it computes) and is then proved to have the properties its documentation promises,
for all inputs, all interleavings and all crash points. Where the code does not have a promised property,
a lemma gives an input that shows it and another says when the code does have it.

| module | about | source |
|---|---|---|
| `SectorSpread` | sector-capped greedy selection | src/omni/api/scanner.py |
| `MixHistory` | annually rebalanced path of a weighted mix | src/omni/api/scanner.py |
| `OrderBook`, `Capacity` | walking books, four-leg round trip, capacity by bisection | ops/carry_capacity.py |
| `Budgets`, `LoginBudgets`, `LockOrder` | fixed-window budgets, what logins draw on them, sorted row locking | src/omni/auth/admission.py |
| `Throttle`, `LoginGuard` | doubling cooldowns, the guarded login | src/omni/auth/throttle.py, src/omni/api/auth.py |
| `RateLimit` | sliding-window limiter | src/omni/auth/ratelimit.py |
| `Delivery`, `DeliveryProtocol` | one delivery pass; workers, leases, fences and crashes | src/omni/alerts/notify.py |
| `Firing` | racing evaluations of one alert | src/omni/alerts/rules.py, src/omni/alerts/notify.py |
| `Claims`, `Crossings` | the order of claims, crossings per source, streaming against batch | src/omni/alerts/rules.py |
| `Paging` | vintage selection and keyset pages | src/omni/api/coverage.py |
| `AtomicFile`, `Ledger` | crash-safe publishing, interleaved tracker runs | ops/call_tracker.py |

`Reals`, `Powers`, `Options`, `Sets`, `Clock` and `KeyOrder` hold what several of them share.

Modelling decisions that hold throughout: Decimals and floats are reals, so nothing here is about
rounding. Times are integers (microseconds) on one monotone clock. A database transaction is one atomic
step, except in `LockOrder`, where its row locks are taken one by one, and in `LoginGuard`, where lock,
check, record and commit are separate steps. Sending a notification, verifying a password and fetching a
price are parameters: any answer is possible. A crash may happen between any two steps.

## What the proofs found

* **The overall cap of the sector selection is tested after the pick.** A cap of zero or less still lets
  one name in (`SectorSpread.CapHoldsIff`). The docstring promises each sector's first name before any second;
  the code is one pass by score (`SectorSpread.SecondBeforeFirst`) and keeps that order exactly when
  `SectorSpread.FirstsThenSecondsIff` says; when at least no first name is left out for a second is said by
  `SectorSpread.FirstsBeforeSecondsIff`. One pass is what makes the choice optimal.
* **Round-trip costs can stay level.** The docstring has every larger order walk strictly further into the
  book; the cost is the same at two sizes exactly when the best price covers the larger one on all four legs
  (`OrderBook.RoundTripLevelIff`, `OrderBook.LevelCost`).
* **The reported capacity can lie below the venue minimum**, exactly when the wall is less than 0.1% deeper than
  the minimum (`Capacity.Search`, `Capacity.SearchThinBooks`). And `beyond_visible_depth` reports 0.999 of the
  wall, not the wall.
* **The budget bound is (k + 1) * maximum - 1** per k windows, one less than a window count suggests, and it
  is attained (`Budgets.WindowBound`, `Budgets.BoundAttained`).
* **33 admitted failures per day is the true bound of the cooldowns**: they fit in 82 980 seconds
  (`Throttle.BoundAttained`).
* **The sliding-window limiter records admitted attempts only.** Its docstring says the check records the attempt,
  so that the door stays closed through a sustained burst; refused attempts leave no trace, and the door stays
  closed exactly for bursts that end before the oldest counted admission leaves the window
  (`RateLimit.StaysClosedIff`, `RateLimit.SustainedBurstLetIn`).
* **The attempt limit does not bound delivery attempts.** It is looked at only when an outcome is recorded, so
  workers that crash between claim and outcome take one row up to 721 times, which is what the delivery window
  allows (`DeliveryProtocol.ClaimsBounded`, `DeliveryProtocol.CrashesOutrunTheLimit`). It is passed only over lost
  claims, and can be passed exactly when `DeliveryProtocol.LimitOutrunIff` says.
* **Races can raise demand twice and fire a one-shot alert twice** (`Firing.RaceFiresTwice`); exactly when is said by
  `Firing.DemandOnceIff` and `Firing.OneShotAgainIff`.
* **A late claim can make streaming differ from batch** (`Crossings.LateArrivalBreaksIt`,
  `Crossings.LateBaseBreaksIt`). In-order arrival rules that out; `Crossings.StreamingIsBatchIff` says exactly which
  orders of arrival do.
* **Not every failure keeps the old ledger.** The docstring says the previous file survives any failure; if the
  directory sync after the rename fails, the caller gets an error and the new file is in place
  (`AtomicFile.FailedWriteKeepsOldIff`). It is a whole file either way.
* **With separate input and output paths the tracker can drop published observations**; with a single path,
  the default, it never can (`Ledger.NothingLostIffOnePath`).

## Model

| member | source | states |
|---|---|---|
| SectorSpread.Select | src/omni/api/scanner.py:1522-1549 | the loop returns exactly the greedy choice: names in ranked order with unit weight, one per kept position |
| SectorSpread.ChosenFeasible | src/omni/api/scanner.py:1522-1549 | with a cap of at least one, the choice has only sectored names, at most max_names of them and at most per_sector from any one sector |
| SectorSpread.CapHoldsIff | src/omni/api/scanner.py:1540-1549 | the overall cap is respected if and only if it is positive, or zero with nothing eligible: it is tested after the append |
| SectorSpread.KeptCount | src/omni/api/scanner.py:1533-1549 | after any prefix of the ranking the walk has kept min(overall cap, sum over the sectors of min(per_sector, its names so far)) names |
| SectorSpread.ChosenIff | src/omni/api/scanner.py:1533-1549 | the choice in closed form, readable off the ranking: a name is picked if and only if it is among the first per_sector of its sector and the places for the names before it do not fill the overall cap |
| SectorSpread.SectorLeftOutIff | src/omni/api/scanner.py:1529-1549 | a sector goes without a name if and only if the places for the names ranked before its first one already fill the overall cap |
| SectorSpread.FirstsThenSecondsIff | src/omni/api/scanner.py:1529-1549 | the docstring's order (every sector's first name is picked, and listed before any second) is kept if and only if no second name with its place before the cap is filled is ranked before another sector's first |
| SectorSpread.FirstsBeforeSecondsIff | src/omni/api/scanner.py:1529-1549 | the weaker order (no sector's second name while another sector's first is left out) is kept if and only if no second name has its place before the cap is filled while some first name comes only after that |
| SectorSpread.SecondBeforeFirst | src/omni/api/scanner.py:1529-1549 | a ranking of three names that breaks both orders with room for two, and with room for all three still the docstring's |
| SectorSpread.SectorDominates | src/omni/api/scanner.py:1533-1547 | until the overall cap is reached, every prefix of the walk has used every sector at least as much as any choice within the caps |
| SectorSpread.PrefixDominates | src/omni/api/scanner.py:1533-1549 | every prefix of the walk has kept at least as many names as any choice within the caps |
| SectorSpread.ByParts | src/omni/api/scanner.py:1522-1549 | exchange argument: a running lead in names over descending scores is a lead in total score |
| SectorSpread.GreedyOptimal | src/omni/api/scanner.py:1522-1549 | for descending non-negative scores, no choice of sectored names within both caps has a larger total score |
| MixHistory.MixPath | src/omni/api/scanner.py:307-361 | the yearly loop fails exactly for an empty or non-positive total weight, and otherwise returns the path that compounds each date's weighted price relatives from the close before its year, with one return per calendar year |
| MixHistory.YearLevel | src/omni/api/scanner.py:343-353 | inside a year, mixing against the carried base times the carried value is the level of the path at every date |
| MixHistory.EndIsProduct | src/omni/api/scanner.py:343-361 | at every year's close the path is the product of the yearly growth factors the loop reports |
| MixHistory.OneAssetTelescopes | src/omni/api/scanner.py:343-361 | a one-asset mix is the plain price ratio at every date, whatever the rebalancing |
| MixHistory.OnlyOneHeld | src/omni/api/scanner.py:307-361 | each weight belongs to its own asset: a mix that holds only the k-th of many is that asset's price ratio at every date |
| MixHistory.MixAdds | src/omni/api/scanner.py:348-351 | the blend is additive in the weights |
| MixHistory.WeightScaleInvariant | src/omni/api/scanner.py:307-311 | scaling all weights by a positive constant leaves the path unchanged |
| MixHistory.PriceScaleInvariant | src/omni/api/scanner.py:343-353 | scaling one asset's prices by a positive constant leaves the path unchanged |
| MixHistory.GrowthIsAverage | src/omni/api/scanner.py:307-353 | with non-negative weights a date's growth lies between its assets' smallest and largest price relatives |
| MixHistory.StartsAtOne | src/omni/api/scanner.py:343-353 | the path starts at 1 |
| MixHistory.PathPositive | src/omni/api/scanner.py:343-361 | with non-negative weights the path stays positive |
| OrderBook.CleanLevels | ops/carry_capacity.py:113-132 | the loop returns the cleaned side of the book |
| OrderBook.KeepsUsableInOrder | ops/carry_capacity.py:113-132 | cleaning keeps exactly the levels that parse to a positive price and size, each with its own price and size, in the venue's order |
| OrderBook.Walk | ops/carry_capacity.py:150-169 | the walk fills if and only if the quantity is positive and covered by the visible size, and then at the volume-weighted price of what it takes |
| OrderBook.AverageGrows | ops/carry_capacity.py:150-169 | on a best-first side the average cost of a larger quantity is not smaller, cross-multiplied |
| OrderBook.AskVwapMonotone | ops/carry_capacity.py:150-169 | the ask VWAP never falls as the quantity grows |
| OrderBook.BidVwapMonotone | ops/carry_capacity.py:150-169 | the bid VWAP never rises as the quantity grows |
| OrderBook.VwapNoBetterThanTouch | ops/carry_capacity.py:135-169 | no walk is filled better than the best price |
| OrderBook.AskVwapLevelIff | ops/carry_capacity.py:150-169 | the ask VWAP is the same at two quantities if and only if the size at the best price covers the larger one |
| OrderBook.BidVwapLevelIff | ops/carry_capacity.py:150-169 | the same for bids |
| OrderBook.LegFillsIff | ops/carry_capacity.py:172-213 | a leg fills exactly for positive notionals up to visible size times mid on a two-sided book |
| OrderBook.LegCostMonotone | ops/carry_capacity.py:172-213 | on a best-first book whatever fills at a size fills below it, with slippage non-negative and non-decreasing |
| OrderBook.LegLevelIff | ops/carry_capacity.py:172-213 | a leg's slippage is the same at two sizes if and only if the size at that side's best price covers the larger one |
| OrderBook.WallFixed | ops/carry_capacity.py:216-271 | the wall reported by a pair does not depend on the notional asked for |
| OrderBook.FillsUpToWall | ops/carry_capacity.py:216-271 | with both markets two-sided, all legs fill exactly for positive notionals up to their common wall |
| OrderBook.PricedIff | ops/carry_capacity.py:216-271 | the round trip is priced if and only if both markets are two-sided and the notional is positive and within the wall; fillability is downward closed |
| OrderBook.RoundTripIsTwoSpreads | ops/carry_capacity.py:216-271 | four legs cross each market's effective spread exactly once and pay every fee; the mids cancel |
| OrderBook.RoundTripIsLegs | ops/carry_capacity.py:250-264 | the published round trip is the sum of the four legs' own costs, the flat one the sum of their slippages and 28 bps |
| OrderBook.OneLevelTouch | ops/carry_capacity.py:135-147 | a book of one bid and one ask has them and their mean as its touch, and none if crossed |
| OrderBook.OneLevelLeg | ops/carry_capacity.py:172-213 | on such a book a buy pays the ask and a sell gets the bid, either loses half the spread over the mid in bps, and every reported figure of the leg is given |
| OrderBook.OneLevelRoundTrip | ops/carry_capacity.py:216-271 | on two such books the round trip costs 10000 (ask - bid) / mid of each market once and every fee twice, and the wall is the smaller market's size at mid |
| OrderBook.RoundTripMonotone | ops/carry_capacity.py:216-271 | on best-first books the round trip cost never falls with size and is never below the fees |
| OrderBook.RoundTripLevelIff | ops/carry_capacity.py:284-297 | the cost is the same at two sizes if and only if on all four legs the size at the best price covers the larger one; otherwise it rises strictly, as the docstring says of every size |
| OrderBook.LevelCost | ops/carry_capacity.py:216-271 | two one-level books on which the cost is the fees at every size up to the wall |
| Capacity.Search | ops/carry_capacity.py:299-376 | each of the five outcomes is returned exactly under its condition; a measured size costs less than the budget and one resolution step above it does not; on best-first books everything up to it is affordable, everything from (ceiling - floor) / 2^60 above it is over budget or unfillable, and the size reported is below the venue minimum if and only if the search gets as far as the ceiling and the wall is less than the minimum over 0.999 |
| Capacity.CeilingPriced | ops/carry_capacity.py:331-345 | in exact arithmetic the cost at 0.999 of the wall is always defined |
| Capacity.AffordableBelow | ops/carry_capacity.py:284-297 | the monotonicity the bisection rests on: below an affordable size everything is affordable |
| Capacity.BracketProper | ops/carry_capacity.py:345-360 | when the bisection starts, its bracket is a proper one: the floor lies strictly below the ceiling |
| Capacity.BracketCrossing | ops/carry_capacity.py:345-376 | an affordable lower and unaffordable upper end of the bracket separate all sizes |
| Capacity.ResolutionIs | ops/carry_capacity.py:353-360 | the resolution is (0.999 wall - floor) / 2^60 |
| Capacity.SearchThinBooks | ops/carry_capacity.py:331-350 | for two books five thousandths of a dollar deeper than a minimum of ten dollars the search reports 9.994995 dollars |
| Budgets.Store.ReserveBudgets | src/omni/auth/admission.py:81-106 | a request reserves in sorted order and commits all of its units, or is refused or invalid and leaves the table as it was |
| Budgets.SortedAscends | src/omni/auth/admission.py:91-93 | reservations are taken in ascending order of key, then maximum, then window |
| KeyOrder.FirstDifference | src/omni/auth/admission.py:91 | keys are ordered by their first difference, a prefix before what it begins |
| Budgets.ReservesEachOnce | src/omni/auth/admission.py:45-58 | a committed request takes exactly one unit of every key it names, opening a new window where the old one is over, and touches no other key |
| Budgets.RequestOnKey | src/omni/auth/admission.py:45-106 | what a whole request does to one key, committed or not |
| Budgets.RequestCommitsIff | src/omni/auth/admission.py:81-106 | all or nothing: a request on distinct keys commits if and only if each budget alone would grant its unit; otherwise nothing changes |
| Budgets.RefusalWait | src/omni/auth/admission.py:98-106 | a refusal on distinct keys names an exhausted key and a wait of at least a second; after that wait the key's budget grants again, and after no shorter wait of more than a second |
| Budgets.InvalidPolicy | src/omni/auth/admission.py:93-96 | a request is invalid only if it names a policy with no maximum or no window |
| Budgets.PruningInvisible | src/omni/auth/throttle.py:139-183 | maintenance passes inserted anywhere in a run change no outcome and no retry time |
| Budgets.PrunedExactly | src/omni/auth/throttle.py:139-183 | a pass removes exactly the keys it picks among those that expired more than a day ago |
| Budgets.CommitsFrom | src/omni/auth/admission.py:45-58 | from any moment on, commits are bounded by what is left of the open window plus a maximum per window that fits |
| Budgets.WindowBound | src/omni/auth/admission.py:45-58 | over every run, a half-open interval of k windows holds at most (k + 1) * maximum - 1 committed reservations of a key |
| Budgets.BoundAttained | src/omni/auth/admission.py:45-58 | for every policy with a window of at least two ticks and every k, a run reaches that bound exactly |
| Budgets.UsedAreCommits | src/omni/auth/admission.py:45-58 | after any run a key's row counts no more than the commits since its window opened |
| LoginBudgets.AddressBound | src/omni/auth/admission.py:135-145 | over any run of logins, fewer than (k + 1) address budgets of logins from one address, for whatever accounts, get past the budgets in k minutes |
| LoginBudgets.AccountBound | src/omni/auth/admission.py:135-145 | fewer than (k + 1) account budgets of logins for one account, from whatever addresses, get past them in k minutes |
| LoginBudgets.UnderBudgetPasses | src/omni/auth/admission.py:135-145 | a login is not refused by the budgets if in the last minute fewer logins than the address budget got past from its address and fewer than the account budget for its account |
| LockOrder.RunKeepsInv | src/omni/auth/admission.py:91-106 | in every run of requests that lock in ascending order, no lock has two holders and every holder holds a prefix of its keys |
| LockOrder.HeldToTheEnd | src/omni/auth/admission.py:91-106 | a transaction that gets a row keeps it through every step until its own end |
| LockOrder.WaitsAscend | src/omni/auth/admission.py:84-93 | along waits the wanted keys strictly ascend |
| LockOrder.NoWaitCycle | src/omni/auth/admission.py:84-93 | no reachable state has a cycle of waits, for any number of requests |
| LockOrder.SomeoneCanStep | src/omni/auth/admission.py:84-93 | while any request is active, one that is not blocked can take its next step |
| LockOrder.StepsUseWork | src/omni/auth/admission.py:91-106 | every step uses up work, so once arrivals stop all requests end |
| LockOrder.BudgetsLockAscending | src/omni/auth/admission.py:91-93 | the sort of `reserve_budgets` makes its requests lock in ascending order |
| LockOrder.UnsortedCanDeadlock | src/omni/auth/admission.py:84-93 | without the sort two requests can block each other |
| Throttle.CooldownIsCappedDoubling | src/omni/auth/throttle.py:66-79 | for five or more failures the cooldown is min(60 * 2^(f - 5), 3600) seconds: the clamp of the exponent is invisible |
| Throttle.CooldownMonotone | src/omni/auth/throttle.py:66-79 | more failures never shorten the cooldown, which is between zero and the cap |
| Throttle.AdmittedIff | src/omni/auth/throttle.py:82-117 | an attempt is admitted if and only if every failure of the last day is at least the cooldown of their number old |
| Throttle.WaitIsExact | src/omni/auth/throttle.py:82-117 | the wait a refusal names is enough, and no shorter one is while the same failures count |
| Throttle.HistoryGrows | src/omni/auth/throttle.py:120-136 | without a success the history only grows, by the admitted failures in order |
| Throttle.FailuresGapped | src/omni/auth/throttle.py:82-117 | in a span shorter than the lookback every admitted failure has waited out the cooldown of those before it |
| Throttle.AtMost33Failures | src/omni/auth/throttle.py:66-117 | with no success in between, any run of logins of one pair has at most 33 admitted failures in any span shorter than the lookback, whatever its history |
| Throttle.BoundAttained | src/omni/auth/throttle.py:66-117 | a run of 82 980 seconds has 33 admitted failures |
| Throttle.PrunedUnseen | src/omni/auth/throttle.py:139-183 | no later check can see what pruning removes |
| Throttle.PrunedClean | src/omni/auth/throttle.py:139-183 | a pass that takes all it may leaves exactly the failures of the last day |
| LoginGuard.Serializable | src/omni/auth/admission.py:117-173 | under any interleaving of logins, crashes and pruning, a pair's lock holders get the verdicts of running one after another, and every later check sees the failure history of that serial run |
| LoginGuard.StepKeepsPair | src/omni/auth/admission.py:117-173 | every step of anybody keeps a pair's committed rows in line with its serial history |
| LoginGuard.LoginGoesThrough | src/omni/auth/admission.py:147-173 | an undisturbed login goes through: refused it leaves the failures as they are, admitted it ends with its outcome recorded and its answer given, no other pair changes; while another holds the pair it is turned away at once |
| LoginGuard.AtMost33Concurrent | src/omni/api/auth.py:203-227 | the bound of 33 holds in every concurrent run |
| LoginGuard.AnswersAreRecorded | src/omni/api/auth.py:211-227 | whoever was answered 401 has a committed failure on record and whoever got a token a committed success |
| LoginGuard.Desk.Login | src/omni/api/auth.py:203-227 | one login passes the burst limiter, then both budgets, then the try-lock, then the throttle; turned away at one stage it leaves the later ones untouched; past the budgets it keeps their units whatever the answer; with the lock it answers by the check on the history before it, changes its own pair as a serial run does and no other pair |
| LoginGuard.Desk.RecordLoginFailure | src/omni/auth/throttle.py:120-128 | one failure is appended to this pair and to no other |
| LoginGuard.Desk.RecordLoginSuccess | src/omni/auth/throttle.py:131-136 | this pair's failures are cleared and no other's |
| RateLimit.Limiter.CheckRateLimit | src/omni/auth/ratelimit.py:28-46 | the pruned deque decides exactly as the full record of admissions would, records the attempt only if admitted, touches no other client, and leaves a sorted deque of at most `limit` entries |
| RateLimit.Limiter.AtMostLimitPerWindow | src/omni/auth/ratelimit.py:28-46 | in every reachable state no closed interval as long as the window holds more than `limit` admissions of a client |
| RateLimit.DoorOpensIff | src/omni/auth/ratelimit.py:28-46 | an attempt is admitted if and only if the limit-th last admission has left the window |
| RateLimit.StaysClosedIff | src/omni/auth/ratelimit.py:31-46 | a burst is refused throughout if and only if it ends by the time the oldest of the last `limit` admissions leaves the window: refused attempts do not keep the door shut |
| RateLimit.LetInWithin | src/omni/auth/ratelimit.py:31-46 | a client that keeps trying at gaps of at most g is let in within g after that time, all its attempts before being refused |
| RateLimit.SustainedBurstLetIn | src/omni/auth/ratelimit.py:31-46 | after a burst of five, attempts every fifteen seconds are refused for exactly a minute and the next is let in |
| RateLimit.WindowHoldsAtMostLimit | src/omni/auth/ratelimit.py:28-46 | admissions spaced so never exceed the limit in a window |
| RateLimit.PoppedDecides | src/omni/auth/ratelimit.py:36-46 | once the old entries are popped, the deque's length gives the full record's verdict |
| Delivery.DeliveryQueue.ClaimOneDueRow | src/omni/alerts/notify.py:444-477 | the oldest due row, if any is due, has its attempt counted and is hidden for the lease; nothing else changes |
| Delivery.DeliveryQueue.ProcessDeliveryQueue | src/omni/alerts/notify.py:480-620 | an undisturbed pass expires and purges, then gives the oldest due rows, oldest first, exactly one turn each; it stops early only when nothing is due; its five counters are the rows expiry changed, the rows purged and the outcomes written |
| Delivery.PassLeaves | src/omni/alerts/notify.py:510-617 | what a pass leaves, in the terms of the table before it: a claimed row was open, due and inside its window, has its attempt counted, and is delivered if the send worked, failed only at the attempt limit, and otherwise open and due a minute times two to its earlier attempts later; an unclaimed row has failed if it was open and a day old, is gone if purged and a week old, and is otherwise untouched |
| Delivery.BackoffIsPower | src/omni/alerts/notify.py:584-598 | the backoff after the k-th attempt is 60 seconds times 2^(k - 1) |
| Delivery.OneTurnEach | src/omni/alerts/notify.py:556-619 | after a pass every claimed row is its starting row after its own turn, and every other row is as it was |
| DeliveryProtocol.StaleNeverApplies | src/omni/alerts/notify.py:571-617 | once the row of a claim is closed, gone or claimed again, no continuation records an outcome of that claim |
| DeliveryProtocol.ClosedForGood | src/omni/alerts/notify.py:525-617 | after any run, a delivered or failed row stays as it is in every continuation until it is purged, and never comes back then |
| DeliveryProtocol.Fencing | src/omni/alerts/notify.py:454-617 | over every interleaving of workers, crashes, expiry and purge: claims are unique in row and attempt number, each has one worker and at most one effective outcome, and no row is closed twice |
| DeliveryProtocol.DeliveredMeansSent | src/omni/alerts/notify.py:556-617 | a row is delivered only under a claim whose send succeeded |
| DeliveryProtocol.FailedForAReason | src/omni/alerts/notify.py:525-583 | in every reachable state a failed row has used up its attempts or is older than its delivery window: a failed send alone closes nothing |
| DeliveryProtocol.OutcomeMeans | src/omni/alerts/notify.py:556-617 | an outcome that matches its row delivers it if the send worked, fails it at the attempt limit, and otherwise leaves it open and due exactly 60 s times 2^(k - 1) from now; it is recorded, and no other row changes |
| DeliveryProtocol.TurnGoesThrough | src/omni/alerts/notify.py:464-617 | an undisturbed turn hides the row for 120 seconds, records the send exactly if it worked, and its outcome matches the row |
| DeliveryProtocol.GoneAfterAWeek | src/omni/alerts/notify.py:533-547 | whatever step makes a row disappear, the row was closed and a week old |
| DeliveryProtocol.FewerRetriesThanAttempts | src/omni/alerts/notify.py:571-598 | a row has at most max_attempts - 1 recorded retries |
| DeliveryProtocol.ClaimsBounded | src/omni/alerts/notify.py:48-66 | with any number of crashes, a row is claimed at most 721 times within its delivery window |
| DeliveryProtocol.NeverTwiceInOnePass | src/omni/alerts/notify.py:464-619 | one pass never claims the same row twice, whatever other workers do |
| DeliveryProtocol.LeasesApart | src/omni/alerts/notify.py:454-476 | in every reachable state two workers on one row made their claims at least a lease apart, so the older has outlived its lease |
| DeliveryProtocol.LeaseExclusive | src/omni/alerts/notify.py:454-476 | two workers that are both inside their leases are never on one row, however late others are |
| DeliveryProtocol.SecondClaimIff | src/omni/alerts/notify.py:454-476 | while a worker holds the latest claim of an open row, a pass that starts now can claim the row too if and only if the lease is over and the delivery window is not |
| DeliveryProtocol.LimitPassedOnlyIfLost | src/omni/alerts/notify.py:571-583 | a row with more than k claims, k at the attempt limit or above, has no effective outcome of its k-th claim |
| DeliveryProtocol.LimitOutrunIff | src/omni/alerts/notify.py:464-583 | in any reachable state a row that has used up its attempts is claimed again in some continuation if and only if it is open, comes due inside its delivery window, and the clock or the start of a running pass is still in time |
| DeliveryProtocol.CrashesOutrunTheLimit | src/omni/alerts/notify.py:464-583 | crashes between claim and outcome take a row to 721 attempts under any limit |
| DeliveryProtocol.LateSendIsDoubled | src/omni/alerts/notify.py:454-476 | a send that outlasts its lease can be doubled by a second worker |
| Firing.AlertBook.Record | src/omni/alerts/rules.py:386-420 | the firing transaction returns what insert-or-nothing inserted, enqueues it once per channel, raises demand exactly if it inserted something and its earlier read saw no firing, disarms a one-shot alert, and otherwise changes nothing |
| Firing.AlertBook.Dispatch | src/omni/alerts/notify.py:340-398 | one batch per configured channel is enqueued |
| Firing.InsertedExactly | src/omni/alerts/rules.py:340-345 | what is reported as inserted is exactly the candidates not yet in the table, each once |
| Firing.UnfiredExactly | src/omni/alerts/rules.py:381-384 | the candidates are exactly the satisfying claims not seen to have fired |
| Firing.UnfiredInOrder | src/omni/alerts/rules.py:381-384 | each occurrence is kept, in the order read |
| Firing.DispatchCoversOnce | src/omni/alerts/notify.py:340-398 | dispatch covers a firing once on each configured channel and on no other |
| Firing.ReturnedIsFiringTable | src/omni/alerts/rules.py:386-422 | racing evaluations return pairwise disjoint firings whose union is exactly the firing table |
| Firing.ReadMeansFired | src/omni/alerts/rules.py:350-422 | once an evaluation has returned, every claim it read as satisfying is in the firing table, and it returned none it had not read |
| Firing.NothingNew | src/omni/alerts/rules.py:376-384 | an evaluation that reads nothing new returns nothing at once and changes nothing |
| Firing.StaysArmed | src/omni/alerts/rules.py:414-420 | only a one-shot alert is ever disarmed |
| Firing.FiredIffEnqueued | src/omni/alerts/rules.py:386-412 | in every reachable state a claim has fired if and only if a transaction recorded it, exactly one did, and exactly one batch per channel configured then covers it; a claim that has not fired is covered by none |
| Firing.RaisesDemandIff | src/omni/alerts/rules.py:381-409 | a firing transaction raises demand if and only if its evaluation had read the firings before the first commit |
| Firing.DemandOnceIff | src/omni/alerts/rules.py:381-409 | once anything has fired demand has been raised, and it has been raised once only if and only if every firing transaction after the first had read the firings after the first commit |
| Firing.OneShotOnlyByRace | src/omni/alerts/rules.py:414-420 | every firing transaction of a one-shot alert belongs to an evaluation that loaded it before the first of them committed |
| Firing.OneShotAgainIff | src/omni/alerts/rules.py:350-420 | after its first firing a one-shot alert fires again in some continuation if and only if an evaluation that loaded it before is still going on and has yet to read or holds an unrecorded candidate |
| Firing.AloneFiresOnce | src/omni/alerts/rules.py:381-420 | if evaluations never overlap, demand is raised at most once and a one-shot alert fires at most once |
| Firing.RaceFiresTwice | src/omni/alerts/rules.py:381-420 | two overlapping evaluations raise demand twice and fire a one-shot alert twice |
| Claims.OrderedAscends | src/omni/alerts/rules.py:188-196 | claims with distinct ids are put in strictly ascending (knowledge_date, id) order |
| Claims.AscendingUnique | src/omni/alerts/rules.py:188-196 | a bag of claims has only one ascending order |
| Claims.OrderedIs | src/omni/alerts/rules.py:188-196 | the order in which claims are listed does not matter |
| Crossings.FindCrossings | src/omni/alerts/rules.py:253-274 | the loop returns the claims at which the condition turns true in the ordered series |
| Crossings.StartsAreMaximalRunStarts | src/omni/alerts/rules.py:253-274 | what fires is exactly the first claims of the maximal runs in which the condition holds |
| Crossings.Satisfying | src/omni/alerts/rules.py:277-303 | the grouping loop fires each source's series on its own, sources in order of first appearance |
| Crossings.FiresBySource | src/omni/alerts/rules.py:277-303 | a claim fires if and only if its own source's series fires it |
| Crossings.HoldsStable | src/omni/alerts/rules.py:199-250 | a later claim does not change whether an earlier one satisfies a value or percent condition |
| Crossings.MovedFromIff | src/omni/alerts/rules.py:214-250 | against a base b a claim of number v holds under a rise iff 100 (v - b) >= pct b and under a fall iff 100 (b - v) >= pct b, reversed for b < 0 and never for b = 0 |
| Crossings.HoldsIffMeets | src/omni/alerts/rules.py:199-250 | holding, in the claims' own numbers: a level strictly beyond its threshold; a percent change against the newest number at least the window older |
| Crossings.FiresIffMeets | src/omni/alerts/rules.py:188-303 | a claim fires if and only if it so meets the condition in its source's history right after one that does not, or at its start |
| Crossings.LevelsExclude | src/omni/alerts/rules.py:199-211 | an above and a below condition on one threshold never both fire a claim, and neither fires one at the threshold or without a number |
| Crossings.ArrivalAddsItself | src/omni/alerts/rules.py:199-303 | an in-order arrival adds at most itself to what fires and takes nothing away |
| Crossings.StreamingIsBatch | src/omni/alerts/rules.py:188-303 | re-evaluating after every in-order arrival, over any listing of the store, fires exactly the starts of the maximal runs of each source's full history, each at its own arrival |
| Crossings.SourcesIndependent | src/omni/alerts/rules.py:277-303 | claims of one source never change another source's firings |
| Crossings.HoldsAfter | src/omni/alerts/rules.py:214-250 | what a new claim makes of another under any condition: it is judged against the new one if that becomes its base (carries a number, is at least the window older, and no later numeric claim is), and as before otherwise |
| Crossings.UnfiresIff | src/omni/alerts/rules.py:214-274 | under any condition, a claim put into a series un-fires one that starts a run if and only if it becomes its base and it did not move enough from it, or comes right before it and holds, or becomes the base of the claim before it, which moved enough |
| Crossings.ArrivalUnfiresIff | src/omni/alerts/rules.py:188-303 | under any condition and any order of arrival and listing, an arrival un-fires a claim if and only if it unseats it so in its source's history |
| Crossings.StreamingIsBatchIff | src/omni/alerts/rules.py:188-303 | under any condition and any order of arrival, streaming fires what one evaluation at the end fires if and only if every claim an arrival unseats starts a run of the full history all the same |
| Crossings.LateArrivalBreaksIt | src/omni/alerts/rules.py:253-303 | a level condition: an older claim that arrives late un-fires a newer one |
| Crossings.LateBaseBreaksIt | src/omni/alerts/rules.py:214-303 | a percent change: a late claim becomes the base of a newer one, which streaming fired and the full history does not |
| Paging.PageFacts | src/omni/api/coverage.py:175-264 | a page is descending and within the limit, lies under the cursor, and leaves out rows only when full, and then only rows older than all of it |
| Paging.SelectedIff | src/omni/api/coverage.py:195-226 | what a request can find: the claims of its type and key; under as_of those known by then that are the latest of their type, key and event date, ties by id |
| Paging.RefusedIff | src/omni/api/coverage.py:184-191 | a request is refused exactly for an unknown type or half a cursor, and otherwise reports its limit brought between 1 and 1000 |
| Paging.CollectedDescends | src/omni/api/coverage.py:228-246 | even while the store changes between requests no row is seen twice, and rows come strictly newest first |
| Paging.NothingSkipped | src/omni/api/coverage.py:228-246 | a row selected throughout is on one of the pages, even while the store changes |
| Paging.NextRequest | src/omni/api/coverage.py:175-264 | the endpoint, sent the last row's date and id, answers with exactly the next page |
| Paging.ReaderFinishes | src/omni/api/coverage.py:175-264 | an empty page is reached within one request more than there are selected rows |
| Paging.PagesPartition | src/omni/api/coverage.py:184-248 | following the cursor to the first empty page yields every selected claim exactly once in (knowledge_date, id) descending order, for any limit, ties included |
| Paging.NoSupersededVintage | src/omni/api/coverage.py:212-226 | under as_of no page shows a row of which the store knew a later vintage of the same period by then |
| Paging.EveryPeriodOnce | src/omni/api/coverage.py:212-226 | under as_of every period with a knowable match is represented by exactly one row |
| AtomicFile.Disk.WriteLedgerAtomic | ops/call_tracker.py:270-296 | the writer creates, writes, syncs, renames and syncs the directory in that order; afterwards the destination reads as the new records and other files as before |
| AtomicFile.Published | ops/call_tracker.py:270-296 | when the write has returned, only the new file can be found after a crash |
| AtomicFile.CrashSafe | ops/call_tracker.py:270-296 | at any crash point the destination is what it could have been before or the complete new file |
| AtomicFile.FailedWriteKeepsOldIff | ops/call_tracker.py:270-296 | whichever call fails, the destination reads as before if and only if that call comes before the end of the rename (or the new records are the old ones); a failing directory sync raises with the new file in place |
| AtomicFile.AlwaysOneWholeVersion | ops/call_tracker.py:270-296 | over any history of completed and killed publishes, publishes whose any call failed, and machine crashes, the destination is one whole version, none older than the last completed publish |
| AtomicFile.UnsyncedRenameCanTear | ops/call_tracker.py:283-287 | without the sync before the rename a crash can leave an empty file |
| Ledger.Tracker.Revise | ops/call_tracker.py:299-362 | one run adds new calls, fills in entry prices and appends changed prices, record by record |
| Ledger.RevisedGrows | ops/call_tracker.py:299-362 | a run keeps every record and known entry price and only appends to observation lists |
| Ledger.RevisedRecord | ops/call_tracker.py:338-361 | what a run does to a known record: nothing if it is not third-party; otherwise an unknown entry price is filled in if recovered, no known one changes, and a snapshot is appended if and only if it is the first or its price differs from the last |
| Ledger.RevisedKnows | ops/call_tracker.py:312-361 | a run knows exactly the records it had and the calls it scraped, a new one as its first scrape describes it |
| Ledger.RevisedChanging | ops/call_tracker.py:355-361 | runs keep observation lists free of repeated prices |
| Ledger.LedgerOnlyGrows | ops/call_tracker.py:242-267 | over any interleaving of runs and crashes, a ledger whose writers also read it only ever grows |
| Ledger.NoLostObservations | ops/call_tracker.py:242-371 | between any two moments of any trace, no record or observation of such a ledger is lost or changed |
| Ledger.SplitPathsLoseObservations | ops/call_tracker.py:87-94 | with any two separate input and output paths an observation published by one run can be dropped by the next |
| Ledger.NothingLostIffOnePath | ops/call_tracker.py:87-94 | runs that read one path and publish to another never lose anything from their output, over all traces, if and only if the two paths are the same |

## Left out

- Time stamps: a guarded transaction has one time stamp, taken at its check; the code stamps failures with the start of the transaction and checks them with the clock.
- Budgets.Store.ReserveBudgets: all reservations of one request share one instant, where the code reads the clock once per statement.
- Clocks: database and hosts share one monotone clock, and the limiter's clock is read under its lock.
- LoginGuard.Serializable: two pairs whose advisory locks collide by hash are not modelled; they would only wait for each other.
- Pool acquisition, statement and lock timeouts, and the 503 answers they lead to.
- Setup, registration and password change; IP normalisation and e-mail fingerprints (a pair is already a normalised one).
- MixHistory.MixPath: starts from the aligned rows; the gates before it (60 rows, 200 days, 15-day gaps, dropping incomplete rows) and the statistics after it are not modelled.
- OrderBook.CleanLevels: levels arrive parsed, with unreadable numbers as absent; Decimal rounding is not modelled.
- Capacity: annualised figures, spreads in basis points and the text of the report.
- Crossings: staleness and contradiction conditions, and NaN or infinite numbers in claims.
- Crossings.Satisfying: takes the visible claims as given; how superseded ones are filtered is outside the modelled files.
- Firing: users switching alerts on and off, cascading deletes, payload texts.
- DeliveryProtocol.Fencing: a worker may claim any due row and a purge may remove any closed, old enough rows, which includes the code's oldest-first choices and batch sizes; a pass's `now` argument is the clock at its start.
- Delivery.DeliveryQueue.ProcessDeliveryQueue: covers a pass that nothing disturbs; concurrent passes are the subject of `DeliveryProtocol`.
- LockOrder.NoWaitCycle: commit releases all locks of a request in one step.
- AtomicFile.AlwaysOneWholeVersion: directory operations reach the disk in order, and files are cut only at whole lines; the closing removal of the temporary name has no effect after a rename and is not a step.
- Ledger.LedgerOnlyGrows: both lock files of a run are taken in one step, and publishing is one step, as the `AtomicFile` results allow; scraping, classification and symbol lookup are parameters, and so is what an entry price lookup brings (the code repeats it on every run while the price is unknown, a comment says once; how often is not modelled).
- HTTP rendering, the SQL engine, the other endpoints of coverage and scanner, settings, wallets and system status.
