# exchange_simulator matching engine in Dafny

This project models the matching engine of the exchange simulator (`Exchange.java`) and
the trading client that talks to it (`Client.java`).

The **price ladder** (`orderBook`) holds one FIFO queue per price tick in `[0, maxPrice)`.
Each entry of a queue is one resting unit: a `Purchase` of one unit, carrying its order id,
its client id and its direction (+1 buy, -1 sell).

The **order registry** has three maps:

- `orderPositions`: the signed remaining size of each order.
- `orderPrices`: the tick each order rests at.
- `orderOwners`: the client that placed each order.

Each registered **client** keeps its own `orderPositions` map, one signed position per
order. The exchange updates it through the `startTrade` and `completeTrade` callbacks.

The engine has three operations:

- `limitOrder` scans the ladder from the far end toward the order's limit tick. It fills
  against the oldest units of every tick whose head unit is on the other side. The remainder
  rests at the limit tick, except on a dry run, which only reports what the order would fill.
- `cancelOrder` takes some of an order's units off its tick.
- `printOrderBook` and `printSizes` report the signed depth and the size of every tick.

The modules are:

- `Orders`: identifiers, the resting unit, the `OrderInformation` result and its average
  price.
- `Ladder`: queues and the ladder as values, the ladder invariant, and the cancel walk as a
  function.
- `Matching`: the crossing scan of `limitOrder` as a function, and its fill accounting, limit,
  price-priority and time-priority lemmas.
- `Clients`: the `Client` class and its two callbacks.
- `Exchanges`: the `Exchange` class, with imperative methods and loops that follow the source.
- `Requests`: the client requests, each taking the exchange and the client.
- `CancelFinding`: `cancelOrder` with its guard as written.
- `Scenarios`: the deterministic tests of `Test.java`, replayed on the model.

The engine's invariant is `Exchanges.Exchange.Valid`. It states all of the following:

- Every tick is one-sided.
- Every resting unit belongs to an order that the registry places at that tick and that its
  client owns.
- Every registry entry equals the signed number of its order's units at its tick.
- Every registered client's map holds exactly the non-zero entries of the orders it owns.

Every public operation keeps this invariant and states its whole new state. The step methods
they call (`EnterOrder`, `RestUnits`, `StartTail`, `WithdrawEntry`, `CancelUnits`, `CancelAt`,
`CancelUnit`) keep a shifted form of it: the invariant holds of the registry with the order's
entry set to what the units resting so far account for.

Where the source's behaviour is surprising, the model follows the code:

- The registry never removes an entry. An order whose units have all filled or been cancelled
  keeps an entry of zero.
- A live limit order that fills completely is still entered, with size zero.
- The source's cancel loop (Exchange.java:198-211) would stop without reporting a shortfall if
  too few matching units rested. The model proves that this cannot happen when the caller owns
  the order (`Exchanges.CancelSupply`). Without the owner check it can happen: see Findings.

## Model

| member | source | states |
|---|---|---|
| Orders.Sign | src/com/company/Exchange.java:196 | `Math.signum` on a position: sign times value is the absolute value, and a non-zero position has sign +1 or -1 |
| Orders.RoundHalfUp | src/com/company/Exchange.java:29 | the division with `RoundingMode.HALF_UP`: the result is within half a unit of n/d, ties away from zero |
| Orders.OrderInformation.AveragePrice | src/com/company/Exchange.java:25-30 | absent exactly when nothing filled; otherwise it is totalPrice/numFilled rounded half up |
| Orders.AveragePriceWithin | src/com/company/Exchange.java:25-30 | when every filled unit's tick lies in [lo, hi], the rounded average also lies in [lo, hi] |
| Clients.AfterStart | src/com/company/Client.java:63-77 | after `startTrade` only the unit's order moves, by the unit's direction; a missing entry counts as zero and no zero entry is kept |
| Clients.AfterComplete | src/com/company/Client.java:51-61 | after `completeTrade` only the unit's order moves, back by the unit's direction; an entry that reaches zero is dropped |
| Clients.StartThenComplete | src/com/company/Client.java:51-77 | `startTrade` then `completeTrade` of the same unit restores the client's map |
| Clients.CompleteThenStart | src/com/company/Client.java:51-77 | `completeTrade` then `startTrade` of the same unit restores the client's map |
| Clients.Client.constructor | src/com/company/Client.java:38-45 | a new client has the given id and an empty position map |
| Clients.Client.CompleteTrade | src/com/company/Client.java:51-61 | the client's map becomes its `AfterComplete` image |
| Clients.Client.StartTrade | src/com/company/Client.java:63-77 | the client's map becomes its `AfterStart` image |
| Ladder.NetOfUniform | src/com/company/Exchange.java:140-149 | the signed depth of a tick whose units are all on side d is d times the number of units |
| Ladder.NetMatchesSize | src/com/company/Exchange.java:140-158 | on a one-sided tick the absolute signed depth equals the tick's size, the property `Test.java` checks at lines 101-105 |
| Ladder.RemoveAt | src/com/company/Exchange.java:208 | removing one unit keeps all the others in their order |
| Ladder.RemoveKeeps | src/com/company/Exchange.java:166-172 | taking any unit off the ladder keeps the ladder invariant once its order's entry moves back by the unit's direction; that entry was non-zero and had the unit's sign |
| Ladder.AppendKeeps | src/com/company/Exchange.java:178-184 | appending a unit of a registered order at its own tick keeps the ladder invariant, provided the tick is empty or on the unit's side, once the entry moves by the unit's direction |
| Ladder.RegisterKeeps | src/com/company/Exchange.java:176-177 | entering a fresh order with no units keeps the ladder invariant |
| Ladder.Repeat | src/com/company/Exchange.java:178-180 | the n identical units `startTrades` queues for one order |
| Ladder.RepeatSnoc | src/com/company/Exchange.java:180 | one more `addLast` extends the run of copies by one |
| Ladder.DropMatchingSpec | src/com/company/Exchange.java:198-211 | the cancel loop takes exactly min(n, matching units) units, all of them matching; every other unit stays in its order |
| Ladder.MatchCountOwned | src/com/company/Exchange.java:204 | when every unit of the order was placed by the caller, the units the loop can match are exactly the order's units |
| Ladder.WalkDone | src/com/company/Exchange.java:198-211 | once n matching units have left, the walked prefix without them followed by the unvisited rest is the loop's result |
| Ladder.DropPrefix | src/com/company/Exchange.java:198-211 | partway through, the loop's result is the kept prefix followed by the loop run on the rest for the units still to take |
| Ladder.CancelStep | src/com/company/Exchange.java:203-210 | one visit of the cancel loop: the visited unit sits just after the units kept so far; it is removed if it matches and kept otherwise |
| Matching.Sweep | src/com/company/Exchange.java:233-253 | the crossing loop as a function: the ladder keeps its length, at most the size asked for fills, and exactly the filled units are taken |
| Matching.SweepIgnoresBehind | src/com/company/Exchange.java:233 | the scan never reads a tick it has passed: changing one changes no fill |
| Matching.SweepNothing | src/com/company/Exchange.java:250-252 | with nothing left to fill the scan takes nothing and changes nothing (the `break`) |
| Matching.SweepTake | src/com/company/Exchange.java:240-248 | at a tick offering liquidity, min(left, queue size) of the oldest units fill at that tick's price, and the scan goes on with the rest |
| Matching.VisitStep | src/com/company/Exchange.java:235-252 | one iteration of the loop: a skipped tick changes nothing; otherwise the fills move from the rest of the scan into what is done |
| Matching.SweepBuyBounds | src/com/company/Exchange.java:233-253 | a buyer's totalPrice lies between start tick and limit tick times the units filled, so it never pays above its limit |
| Matching.SweepSellBounds | src/com/company/Exchange.java:233-253 | a seller's totalPrice lies between limit tick and start tick times the units filled, so it never receives below its limit |
| Matching.SweepWithin | src/com/company/Exchange.java:240-248 | when every tick the scan visits lies in [lo, hi], its totalPrice lies between lo and hi times the units filled, in either direction |
| Matching.TakeBetween | src/com/company/Exchange.java:240-248 | filling k units at a tick inside [lo, hi] adds k times that tick to totalPrice, which stays within lo and hi times the units filled |
| Matching.SweepFillsLiquidity | src/com/company/Exchange.java:233-253 | the scan fills min(size, units reachable on the other side up to the limit) |
| Matching.SweepConserves | src/com/company/Exchange.java:240-248 | the ladder loses exactly the filled count of units, and totalPrice is the sum of the ticks they left from |
| Matching.SweepUnits | src/com/company/Exchange.java:240-248 | the ladder loses exactly as many units as the scan fills |
| Matching.SweepWeight | src/com/company/Exchange.java:240-248 | the ticks of the units the ladder loses add up to totalPrice |
| Matching.ScanOver | src/com/company/Exchange.java:250-253 | once the scan stops, after the limit or with nothing left to fill, the loop's counters are the scan's outcome and the ladder is the one it leaves |
| Matching.SweepFrameAt | src/com/company/Exchange.java:235-238 | a tick beyond the limit, or whose head is on the aggressor's side, is left untouched |
| Matching.SweepTakesOldest | src/com/company/Exchange.java:167 | time priority: what the scan leaves of every tick is a suffix of it, so it always takes the oldest units |
| Matching.SweepLeavesNoCross | src/com/company/Exchange.java:250-258 | an order left unfilled leaves no opposite liquidity at any tick it scanned, so its resting remainder crosses nothing |
| Matching.SweepBestFirst | src/com/company/Exchange.java:233-252 | price priority: if the scan took units at a tick, no tick it passed before still offers liquidity |
| Exchanges.View | src/com/company/Client.java:35 | a client's map is the non-zero registry entries of the orders it owns |
| Exchanges.ViewRegister | src/com/company/Exchange.java:176-177 | entering a fresh order with a zero entry changes no client's map |
| Exchanges.ViewComplete | src/com/company/Exchange.java:168-170 | moving an entry back by one unit is `completeTrade` on its owner's map and leaves every other map alone |
| Exchanges.ViewStart | src/com/company/Exchange.java:176-182 | moving an entry forward by one unit is `startTrade` on its owner's map and leaves every other map alone |
| Exchanges.RemoveUnit | src/com/company/Exchange.java:166-172 | a unit leaving the ladder, with its entry moved back and its owner notified, keeps the whole bookkeeping coherent |
| Exchanges.AddUnit | src/com/company/Exchange.java:178-183 | a unit joining its tick, with its entry moved forward and its owner notified, keeps the whole bookkeeping coherent |
| Exchanges.RegisterOrder | src/com/company/Exchange.java:176-177 | entering a fresh order keeps the whole bookkeeping coherent |
| Exchanges.AddClient | src/com/company/Exchange.java:133-138 | registering a new client with an empty map keeps the whole bookkeeping coherent |
| Exchanges.CancelSupply | src/com/company/Exchange.java:190-211 | the units the owner's cancel loop can match at the order's tick number exactly the absolute value of the entry, so the loop never stops short |
| Exchanges.CancelTakesSize | src/com/company/Exchange.java:190-211 | an accepted cancel of s units shortens the order's tick by exactly s and keeps every other unit there, in order |
| Exchanges.WithdrawStep | src/com/company/Exchange.java:196-197 | moving the entry toward zero one unit at a time: each unit withdrawn is on the entry's side |
| Exchanges.ReleasedStep | src/com/company/Exchange.java:166-168 | completing one more unit is one more registry update |
| Exchanges.ReleasedNet | src/com/company/Exchange.java:166-172 | after units fill, every order's entry has moved back by the signed count of its filled units, and no other entry changed |
| Exchanges.ReleasedConcat | src/com/company/Exchange.java:247 | completing units tick by tick is the same as completing them all at once |
| Exchanges.Scan | src/com/company/Exchange.java:231-233 | the scan `limitOrder` makes, starting at tick 0 for a buy and the top tick for a sell: the ladder keeps its length and at most size fills |
| Exchanges.ScanWithinLimit | src/com/company/Exchange.java:217-262 | the average price of a limit order is absent exactly when nothing filled; a buy averages between 0 and its limit, a sell between its limit and the top tick |
| Exchanges.Exchange.constructor | src/com/company/Exchange.java:107-129 | `initExchange`: maxTicks empty ticks, and no orders or clients |
| Exchanges.Exchange.RegisterClient | src/com/company/Exchange.java:133-138 | a client id is registered once; registering an id again changes nothing |
| Exchanges.Exchange.PrintOrderBook | src/com/company/Exchange.java:140-149 | each tick's entry is the sum of its units' directions, whose absolute value is the tick's size |
| Exchanges.Exchange.PrintSizes | src/com/company/Exchange.java:151-158 | each tick's entry is the number of its units |
| Exchanges.Exchange.CompleteTrades | src/com/company/Exchange.java:160-173 | the size oldest units leave the tick and their orders' entries move back; the invariant holds |
| Exchanges.Exchange.CompleteHead | src/com/company/Exchange.java:166-172 | one iteration: the oldest unit leaves, its entry moves back, and its owner is told |
| Exchanges.Exchange.StartTrades | src/com/company/Exchange.java:175-185 | the order is entered with signed size and tick, and size copies of its unit join the back of the tick; the invariant holds |
| Exchanges.Exchange.EnterOrder | src/com/company/Exchange.java:176-177 | the registry records the order before any unit rests |
| Exchanges.Exchange.RestUnits | src/com/company/Exchange.java:178-184 | the loop of `startTrades`: size units are appended one by one |
| Exchanges.Exchange.StartTail | src/com/company/Exchange.java:179-183 | one iteration: the unit joins the back of the tick and its owner is told |
| Exchanges.Exchange.CancelOrder | src/com/company/Exchange.java:187-215 | succeeds exactly when the order exists, belongs to the caller and has at least size units left; on success the entry moves size toward zero and the tick loses the order's oldest size units; on failure nothing changes |
| Exchanges.Exchange.WithdrawEntry | src/com/company/Exchange.java:194-197 | the entry moves by direction times size before any unit leaves |
| Exchanges.Exchange.CancelUnits | src/com/company/Exchange.java:198-211 | the cancel loop: the tick becomes the walk's result, and the entry reads size units closer to zero |
| Exchanges.Exchange.CancelAt | src/com/company/Exchange.java:199-210 | one iteration: a matching unit leaves and counts down leftToFill, and any other unit is passed over |
| Exchanges.Exchange.CancelUnit | src/com/company/Exchange.java:203-209 | the unit is reported to its owner and removed from the tick; it was on its entry's side |
| Exchanges.Exchange.LimitOrder | src/com/company/Exchange.java:217-262 | reports the fresh id, the units filled and the sum of their ticks, as the scan gives them; a dry run changes no order; otherwise the filled units leave and the remainder rests at the limit under the new id |
| Exchanges.Exchange.NewOrderId | src/com/company/Exchange.java:228 | every call draws an id never used before |
| Exchanges.Exchange.Cross | src/com/company/Exchange.java:226-253 | the crossing loop returns the scan's leftToFill and totalPrice; unless dry, the ladder becomes the scan's and the filled units' entries move back |
| Exchanges.Exchange.VisitTick | src/com/company/Exchange.java:234-252 | one iteration of the crossing loop: what the scan has still to give is unchanged once this tick's fills count as done |
| Requests.PositionsMirror | src/com/company/Client.java:35 | a registered client's map is always the non-zero entries of the orders it placed |
| Requests.NewClient | src/com/company/Client.java:38-45 | a new client has an empty map and is registered under its id |
| Requests.RequestForQuotes | src/com/company/Client.java:79-83 | a dry run over the whole ladder: it fills min(size, liquidity on the other side) and changes no order; with no ticks it fills nothing |
| Requests.SendLimitOrder | src/com/company/Client.java:85-87 | a live limit order under the client's own id, with the effect of `LimitOrder` |
| Requests.CancelOrder | src/com/company/Client.java:89 | a cancel under the client's own id, with the effect of `CancelOrder` |
| CancelFinding.CancelAsWritten | src/com/company/Exchange.java:187-215 | the guard as written: accepted exactly when the order exists and has at least size units, whoever asks |
| CancelFinding.DropNothing | src/com/company/Exchange.java:204 | with no matching unit, the cancel loop leaves the tick as it was |
| CancelFinding.NonOwnerCancelDesyncs | src/com/company/Exchange.java:190-211 | a cancel sent under another client's id is accepted and leaves the ladder as it was, so the registry no longer agrees with the ladder |
| CancelFinding.NonOwnerCancelExample | src/com/company/Exchange.java:190-211 | the smallest such case, worked out |
| Scenarios.LimitStep1 | src/com/company/Test.java:16-19 | a buy of 3 at tick 1 on an empty ladder rests |
| Scenarios.LimitStep2 | src/com/company/Test.java:20-24 | a sell of 1 at tick 2 rests |
| Scenarios.LimitStep3 | src/com/company/Test.java:25-29 | a sell of 1 at tick 1 fills 1 for total 1 |
| Scenarios.LimitStep4 | src/com/company/Test.java:30-35 | a buy of 4 at tick 3 fills 1 for total 2 and rests 3 |
| Scenarios.LimitStep5 | src/com/company/Test.java:36-41 | a sell of 4 at tick 1 fills 4 for total 10 |
| Scenarios.Send | src/com/company/Test.java:16-19 | one `sendLimitOrder` followed by `printOrderBook`, as `testLimitOrder` does |
| Scenarios.PositionsSteps12 | src/com/company/Test.java:49-50 | two buys of 1 at tick 1 rest one behind the other |
| Scenarios.PositionsStep3 | src/com/company/Test.java:51 | a sell of 1 at tick 1 fills against the older buy, whose entry drops to zero |
| Scenarios.PositionsViews | src/com/company/Test.java:52-54 | the three clients end with maps of sizes 0, 1 and 0 |
| Scenarios.CancelSetup | src/com/company/Test.java:61-64 | the four orders of `testCancelOrder` rest without crossing |
| Scenarios.CancelDrops | src/com/company/Test.java:65-67 | the three cancels leave 2 units at tick 1, the other client's 4 at tick 2, and all 4 at tick 3 |
| Scenarios.Place | src/com/company/Test.java:61-64 | one `sendLimitOrder` that crosses nothing rests all its units |
| Scenarios.Withdraw | src/com/company/Test.java:65-67 | one accepted `cancelOrder` of the client's own order |

The methods `Scenarios.LimitOrderScenario`, `Scenarios.OrderPositionsScenario` and
`Scenarios.CancelOrderScenario` replay `testLimitOrder`, `testOrderPositions` and
`testCancelOrder` as assertions, with their continuation methods. They have no contract of
their own.

## Left out

- Locking (`synchronized`, `getLock`) and concurrent clients are not modelled. Every call runs
  alone, so the model is the serial order the lock enforces.
- Logging (`LogWriter`, the log directory and the file set-up in `initExchange`) is not
  modelled.
- The exchange constructors' `SwapPricer` and its thread (Exchange.java:67-105) are not modelled.
  `SwapPricer.java`, `Simulator.java`, `DiscreteRandom.java`, `Main.java` and
  `SimulatorClient` are not part of this model.
- `testOrderBook` (Test.java:88-106) needs `Simulator` to fill the ladder, so it is not
  replayed. Its final check is `Ladder.NetMatchesSize` together with
  `Exchanges.Exchange.PrintOrderBook`.
- Random `UUID`s are replaced by a counter (`nextOrderId`) for orders and by given numbers for
  clients. The source compares ids with `==` on the objects at Exchange.java:204. The model
  compares values, which agrees with the source because the ids compared there are the very
  objects the exchange handed out.
- Each unit's `Timestamp` is replaced by its place in the tick's queue, which is the only
  order the source relies on.
- The ladder (a Java array of linked lists) is a `seq` field of queues that the methods
  reassign. In-place mutation of the lists and aliasing between them are not modelled.
- `orderOwners` is added by the model; the source keeps the owner only inside each unit.
  The model needs it for the owner check of `cancelOrder` and to state each client's map.
- Orders.OrderInformation.AveragePrice: returns the average in ticks. The source multiplies it
  by `tickSize` (0.0001, a `BigDecimal`), which is not modelled.
- Java `int` overflow of `totalPrice`, sizes and positions is not modelled. Integers are
  unbounded.
- Negative sizes are not modelled: sizes are `nat`.
- Exchanges.Exchange.LimitOrder: requires `0 <= tickPrice < maxPrice`, the range every caller
  keeps (Client.java:79-83 and Client.java:131-134). Outside it the source's loop either stops
  at once (a sell limited at `maxPrice`, a buy limited at -1: nothing fills), or scans past the
  limit: it then throws when the index leaves the array, or returns normally when the order
  fills first (a buy limited at -2 acts as a market order). None of this is modelled.
- Exchanges.Exchange.CompleteTrades: requires size at most the tick's length. The source's
  other branch (Exchange.java:161-164) only logs and returns, and its one caller never takes it.
- Clients.Client.CompleteTrade: requires the order's entry to exist. The source throws on a
  missing entry when it unboxes `null`; the exchange never sends such a unit.
- Exchanges.Exchange.RegisterClient: requires the new client's map to be empty and the id to
  match the client's own. Client.java:38-45 guarantees both.
- `registeredClients.get` is modelled as a lookup the invariant guarantees to succeed. The
  source would throw on a missing client.
- `requestForQuotes` draws a fresh order id, as every `limitOrder` call does. The model's
  counter advances on dry runs too.

## Findings

| source | as written | input that shows it | evidently intended | confidence | as-written member | corrected member |
|---|---|---|---|---|---|---|
| src/com/company/Exchange.java:190-211 | the guard checks only that the order exists and has enough units, but the removal loop at line 204 matches on both order id and client id | client 1 rests a buy of 2 at tick 1; client 2 cancels 2 units of that order: the cancel returns true and the entry drops to 0, yet both units still rest and can still fill | reject a cancel from a client that does not own the order | not executed | CancelFinding.NonOwnerCancelExample | Exchanges.Exchange.CancelOrder |
