# Single-instrument order book, modelled in Dafny

This project models a limit order book for one instrument with price-time
priority matching. It covers the order value, the four maps that make up the
book, and every operation the book runs on them:

- **The book.** `orders_` is the id index. `bids_` holds the bid levels, best (highest) price first. `asks_` holds the ask levels, best (lowest) price first. `priceLevel_` is one aggregate map shared by both sides, giving an order count and an available quantity per price.
- **Adding.** `AddOrder` refuses a duplicate id. It resolves a market order to the best opposite price. It puts a FillOrKill order through a pre-flight check. It appends the order at the back of its level, then matches.
- **Cancelling and modifying.** `CancelOrder` removes exactly one order. `ModifyOrder` cancels, then re-adds the order under a new id.
- **Matching.** `MatchOrder` fills the fronts of the best bid and best ask levels against each other while the book is crossed. Each fill records one `Trade`. Afterwards, a FillOrKill order at the front of either side's best level is cancelled; one resting deeper in a level is left alone.
- **Reporting.** `GetOrderBookInfo` lists each side's levels with the summed remaining quantity.

The model has two layers:

- A value layer describes each operation as a function on a `Book` value, together with the invariant `Inv`. `Inv` says:
  - the id index and the level lists agree;
  - no id is listed twice;
  - each order sits on its own side at its own price;
  - every aggregate holds the exact count and the uint32 sum of what rests at its price.
- The `OrderBooks.OrderBook` class holds the four maps as fields. Its methods update them step by step, in the source's order. Each method is proved to leave exactly the state the value layer describes.

Files and modules:

- `common.dfy`, module `Common`: `Quantity` (uint32), `OrderId` (uint64), integer prices, and uint32 wrap-around.
- `orders.dfy`, module `Orders`: `Side`, `OrderType`, `INVALID_PRICE`, and the `Order` value. The order's two mutators return a `Result` that carries the exception the source throws.
- `book_state.dfy`, module `BookState`:
  - the `Book`;
  - `PriceLevelData` and `Action`, with the aggregate update;
  - `OrderEntry`, `Trade`/`TradeInfo`, `PriceLevelInfo` and `OrderBookLevelInfo`;
  - the invariant.
- `book_ops.dfy`, module `BookOps`: insertion and cancellation, and the proofs that they keep the invariant.
- `matching.dfy`, module `Matching`: one fill of the two fronts, the inner loop, the outer loop, and the FillOrKill clean-up.
- `admission.dfy`, module `Admission`: the checks `AddOrder` runs before inserting, `AddOrder` and `ModifyOrder` as functions, and the FillOrKill scan's specification.
- `snapshot.dfy`, module `Snapshot`: `GetOrderBookInfo`'s two loops.
- `fill_or_kill.dfy`, module `FillOrKill`: the proof that `AddOrder` with the corrected FillOrKill check is all or nothing.
- `order_book.dfy`, module `OrderBooks`: the `OrderBook` class.
- `findings.dfy`, module `Findings`: three defects of the source, each modelled as written with a concrete book that exhibits it.

## Model

| member | source | states |
|---|---|---|
| `Common.Wrap32` | include/commonAlias.h:7 | A uint32 result equals the mathematical value whenever that value is in range. |
| `Orders.NewMarketOrder` | include/order.h:34-42 | The market-order constructor keeps id, type, side and initial quantity, starts with remaining == initial, and carries the sentinel price INVALID_PRICE (-1, order.h:57). |
| `Orders.NewPricedOrder` | include/order.h:44-53 | The priced constructor keeps every argument and starts with remaining == initial. |
| `Orders.Order.AdjustMarketOrderPrice` | include/order.h:73-80 | Succeeds exactly for a market order, and then changes only the price. Any other type fails with the invalid-operation error and the order is unchanged. |
| `Orders.Order.FillOrder` | include/order.h:82-89 | Fails exactly when q exceeds the remaining quantity. Otherwise remaining drops by exactly q, identity fields and price stay, the result is filled iff q was all that remained, and 0 <= remaining <= initial is preserved. |
| `BookState.ApplyLevelAction` | src/orderBook.cpp:131-149 | Add adds one order and qty (wrapped). Remove takes off one order and qty. Match keeps the count and takes off qty. The level is erased exactly when its count reaches 0. A missing level starts at zero, and other prices are untouched. |
| `BookState.MaxKey` | include/orderBook.h:80 | The first key of the `std::greater` bid map is a key that no other key exceeds. |
| `BookState.MinKey` | include/orderBook.h:81 | The first key of the `std::less` ask map is a key no other key undercuts. |
| `BookState.EntryOf` | include/orderBook.h:56-60 | For an indexed order, the entry holds that order and a position in its own side's level at its price. The id is at that position, and at no other. |
| `BookState.SizeZero` | include/orderBook.h:48-51 | Size (the number of indexed orders) is 0 exactly when both sides have no level. |
| `BookOps.Insert` | src/orderBook.cpp:35-51 | The id index gains exactly the order. The order's side becomes its old level map with exactly the key at the order's price set to the old level (empty if absent) plus the order's id at the tail, so no other key is added or changed. The other side is unchanged. The aggregate at its price gets Add with its initial quantity. |
| `BookOps.InsertPreservesInv` | src/orderBook.cpp:35-51 | Inserting a fresh, unfilled order keeps the whole book invariant (index and lists agree, FIFO lists without repeats, exact aggregates). |
| `BookOps.Cancel` | src/orderBook.cpp:57-80 | An unknown id leaves the book unchanged. Otherwise exactly that id leaves the index. |
| `BookOps.CancelShape` | src/orderBook.cpp:62-79 | The order's level loses that id only, and its key is erased exactly when the level empties. Other levels and the other side are unchanged. The aggregate at its price gets Remove with the remaining quantity. |
| `BookOps.CancelLevel` | src/orderBook.cpp:65-78 | The level after cancellation is the level before with the one position holding the id cut out. The rest keeps its FIFO order and no repeats. |
| `BookOps.CancelPreservesInv` | src/orderBook.cpp:57-80 | Cancelling keeps the invariant, including exact aggregates, and keeps the absence of empty levels. |
| `BookOps.CancelKeepsUncrossed` | src/orderBook.cpp:57-80 | Cancelling cannot cross an uncrossed book. |
| `Matching.FillFronts` | src/orderBook.cpp:183-203 | Both legs of the trade carry the same quantity, and each leg carries its own level's price. |
| `Matching.FillFrontsQuantity` | src/orderBook.cpp:183-186 | The trade names the two front orders and fills min of their remaining quantities, which empties at least one of them. |
| `Matching.FillFrontsBidLeg` | src/orderBook.cpp:186-194 | The bid front stays indexed iff the fill left some quantity. Then its remaining drops by exactly the fill and it stays at the front. Otherwise it is popped from its level. |
| `Matching.FillFrontsAskLeg` | src/orderBook.cpp:186-199 | The same for the ask front. |
| `Matching.FillFrontsOthers` | src/orderBook.cpp:181-204 | Every order other than the two fronts is unchanged. |
| `Matching.FillFrontsFrame` | src/orderBook.cpp:181-204 | One fill changes no level other than the two being matched. |
| `Matching.FillFrontsShrinks` | src/orderBook.cpp:181-204 | One fill keeps every level key, and retires at least one order from the index. |
| `Matching.FillFrontsPreservesInv` | src/orderBook.cpp:181-204 | One fill, with its two Remove/Match aggregate updates, keeps the invariant. |
| `Matching.DrainLevelsFacts` | src/orderBook.cpp:181-204 | The inner loop keeps the invariant and the level keys. It stops with the best bid level or the best ask level empty and touches no other level. It retires at least one order when both levels started non-empty. Every trade is at those two prices with equal legs. |
| `Matching.EraseEmpty` | src/orderBook.cpp:206-213 | Exactly the emptied best levels lose their keys, the bid at the bid price and the ask at the ask price. Orders, aggregates and every level's contents are unchanged. |
| `Matching.EraseEmptyPreservesInv` | src/orderBook.cpp:206-213 | Dropping empty levels keeps the invariant. |
| `Matching.PassNoEmpty` | src/orderBook.cpp:172-213 | One pass of the outer loop leaves a valid book with no empty level. |
| `Matching.MatchingLoop` | src/orderBook.cpp:172-214 | The outer loop terminates on a book that is not crossed, is valid and has no empty level. It only removes orders. Every trade has bid price >= ask price and equal legs. An uncrossed book is left as it is, with no trades. |
| `Matching.TradedIds` | src/orderBook.cpp:201 | The set holds both legs' order ids of every trade, and only ids that appear in some trade. |
| `Matching.FillFrontsRetires` | src/orderBook.cpp:181-204 | One fill adds no order, keeps the id, type, side and initial quantity of every order it leaves, and removes only orders named in its trade. |
| `Matching.DrainLevelsRetires` | src/orderBook.cpp:181-204 | The inner loop removes only orders that appear in its trades and keeps the identity of every order left. |
| `Matching.MatchingLoopRetires` | src/orderBook.cpp:172-214 | The outer loop removes only orders that appear in its trades and keeps the identity of every order left. |
| `Matching.KillRemovesFillOrKill` | src/orderBook.cpp:216-229 | The clean-up removes only a FillOrKill order and leaves every other order exactly as it was. |
| `Matching.MatchOrderRetires` | src/orderBook.cpp:167-232 | MatchOrder adds no order and keeps every remaining order's identity. An order that leaves either appears in one of the trades or was FillOrKill. |
| `Matching.BestPrice` | src/orderBook.cpp:176-177 | The best bid is the highest bid price; the best ask is the lowest ask price. |
| `Matching.KillFillOrKillFront` | src/orderBook.cpp:216-229 | If the side has a level and the front order of its best level is FillOrKill, that order is cancelled. Otherwise the book is unchanged. The invariant and uncrossedness are kept. |
| `Matching.MatchOrderSpec` | src/orderBook.cpp:167-232 | Matching then clean-up leaves a valid, uncrossed book without empty levels, with only orders removed and every trade at bid >= ask with equal legs. |
| `Admission.OppositeEligible` | src/orderBook.cpp:103-125 | The prices the corrected scan may count are exactly the opposite side's level prices at or below the limit for a buy, and at or above it for a sell. The source scans the aggregates of both sides; see Findings. |
| `Admission.Admit` | src/orderBook.cpp:11-33 | A duplicate id is refused. A market order is admitted iff the opposite side has a level, and then carries the best opposite price. A FillOrKill order is admitted iff the corrected scan says it can be filled: the opposite side has a level, and the aggregates of its levels within the limit reach the initial quantity. Every other order with a fresh id is admitted, unchanged. |
| `Admission.AddSpec` | src/orderBook.cpp:8-55 | A refused order leaves the book unchanged with no trades. Otherwise the book stays valid and uncrossed, gains at most the new id, and every trade has bid >= ask with equal legs. |
| `Admission.AddEntersOrTrades` | src/orderBook.cpp:35-55 | An admitted order that is not FillOrKill either rests in the book afterwards with its own id, type, side and initial quantity, or appears in one of the trades the add made. Every earlier order that left the book traded, unless it was FillOrKill, and every order that stays keeps its identity. |
| `Admission.AddRestsAtBack` | src/orderBook.cpp:35-54 | An admitted order that does not cross the book rests at the back of its level with no trades: FIFO time priority. |
| `Admission.Replacement` | src/orderBook.cpp:91-94 | The replacement has the fresh id, the original type, the requested side and quantity, and is unfilled. It carries the requested price, or INVALID_PRICE when the original was a market order. |
| `Admission.ModifySpec` | src/orderBook.cpp:82-97 | Cancel followed by AddOrder of the replacement keeps the book valid and uncrossed. The old id is gone unless reused, and the book holds no id but the old ones less the modified id, plus the new id. A refused replacement leaves exactly the book after the cancellation. |
| `Admission.ModifyRestsAtBack` | src/orderBook.cpp:82-97 | A replacement that is admitted, is not FillOrKill and does not cross the book rests at the back of its level, indexed as itself: the modified order loses its time priority. The old id is gone unless reused. |
| `Snapshot.LevelQuantity` | src/orderBook.cpp:240-243 | `std::accumulate` in uint32 yields the exact sum of the level's remaining quantities, wrapped. |
| `Snapshot.ListLevels` | src/orderBook.cpp:245-252 | The listing has exactly one entry per level of the side, strictly in the map's order (bids descending, asks ascending). Each entry gives its level's wrapped remaining sum. |
| `Snapshot.SnapshotMatchesAggregate` | src/orderBook.cpp:240-243 | Where only one side rests at a price, the listed quantity equals the aggregate's available quantity. |
| `OrderBooks.PassInSteps` | src/orderBook.cpp:183-203 | One fill is, step by step: fill both fronts by the min (never throwing); pop and un-index each filled one; apply Remove or Match at each order's price; emit one trade of (id, min, own price) per leg. |
| `OrderBooks.OrderBook.constructor` | include/orderBook.h:15 | A new book is empty and valid. |
| `OrderBooks.OrderBook.UpdatePriceLevelData` | src/orderBook.cpp:131-149 | The aggregate map becomes the Add/Remove/Match update of the old one, and nothing else changes. |
| `OrderBooks.OrderBook.OnAddOrder` | src/orderBook.cpp:151-154 | Add with the order's initial quantity at its price. |
| `OrderBooks.OrderBook.OnCancelOrder` | src/orderBook.cpp:156-159 | Remove at the order's price, with its remaining quantity (see Findings). |
| `OrderBooks.OrderBook.OnMatchOrder` | src/orderBook.cpp:162-165 | Remove if the order was fully filled, else Match, with the matched quantity. |
| `OrderBooks.OrderBook.CancelOrder` | src/orderBook.cpp:57-80 | The four maps end as the cancellation specifies. A book that met the class invariant (valid, uncrossed, no empty level) still meets it. |
| `OrderBooks.OrderBook.CanFullyFillOrder` | src/orderBook.cpp:99-129 | The corrected scan walks the opposite side's levels best-first until the limit, taking each level's aggregate off the quantity. Its answer is exactly this: the opposite side has a level, and the aggregates within the limit reach the quantity. It modifies nothing. |
| `OrderBooks.OrderBook.MatchFronts` | src/orderBook.cpp:183-203 | One iteration of the inner loop leaves the maps and returns the trade as the one-fill specification says. |
| `OrderBooks.OrderBook.DrainBestLevels` | src/orderBook.cpp:181-204 | The inner loop's final state and trades equal the inner-loop specification. |
| `OrderBooks.OrderBook.EraseEmptyLevels` | src/orderBook.cpp:206-213 | Only bids and asks change, to the emptied-level erase at each side's own price. |
| `OrderBooks.OrderBook.CancelFillOrKillFront` | src/orderBook.cpp:216-229 | The book becomes the FillOrKill clean-up of one side. |
| `OrderBooks.OrderBook.MatchOrder` | src/orderBook.cpp:167-232 | The whole matching run's state and trades equal the matching specification. The outer loop terminates. |
| `OrderBooks.OrderBook.AddOrder` | src/orderBook.cpp:8-55 | State and trades equal the add specification, and the class invariant is kept. |
| `OrderBooks.OrderBook.ModifyOrder` | src/orderBook.cpp:82-97 | The state equals the modify specification, and the class invariant is kept. |
| `OrderBooks.OrderBook.GetOrderBookInfo` | src/orderBook.cpp:234-255 | The bid listing lists the bid levels highest first. The ask listing lists the ask levels lowest first. Each entry gives its level's remaining sum. |
| `Findings.EraseEmptyAsWritten` | src/orderBook.cpp:206-213 | As written: an emptied ask level is erased at the bid price. |
| `Findings.HangFirstPass` | src/orderBook.cpp:172-214 | On the example, one outer pass as written is a single fill that empties the ask level at 50 and erases nothing. |
| `Findings.StuckOnEmptyAskLevel` | src/orderBook.cpp:172-214 | A crossed book whose best ask level is empty, with no ask level at the best bid price, is a fixed point of the outer pass as written. |
| `Findings.EraseAtBidPriceHangs` | src/orderBook.cpp:210-213 | On a valid crossed book, the outer loop as written reaches a crossed book with an empty ask level that every later pass leaves unchanged: `while (true)` never exits. |
| `Findings.OrphanErase` | src/orderBook.cpp:206-213 | With both best levels emptied, the as-written erase removes the ask level at the bid price 60 and keeps the empty one at 50, so an indexed sell at 60 is listed nowhere. |
| `Findings.OrphanPass` | src/orderBook.cpp:172-213 | On a valid crossed book shaped like the second example, the outer pass as written breaks the listing invariant. |
| `Findings.EraseAtBidPriceOrphans` | src/orderBook.cpp:210-213 | On the second example the first pass as written leaves the sell of 5 at 60 indexed but in no level, and an empty ask level at 50. |
| `Findings.CancelAsWritten` | src/orderBook.cpp:156-159 | As written: cancellation takes the initial quantity off the aggregate. |
| `Findings.CancelAsWrittenDrifts` | src/orderBook.cpp:156-159 | On the example the as-written aggregate wraps to 4294967288 and is no longer exact. The corrected cancellation gives the exact 1. |
| `Findings.EligibleAsWritten` | src/orderBook.cpp:106-110 | As written, the scanned prices are every aggregate price at or below the limit for a buy (at or above for a sell, lines 119-123), levels of the order's own side included. |
| `Findings.AdmitAsWritten` | src/orderBook.cpp:11-33 | As written, a fresh FillOrKill order is admitted iff the opposite side has a level and the as-written scan reaches its quantity. A duplicate id is refused, and every other order is admitted as in `Admission.Admit`. |
| `Findings.AddAsWritten` | src/orderBook.cpp:8-55 | As written, AddOrder: a refused order leaves the book as it was with no trades, and a non-FillOrKill order is added exactly as in `Admission.AddSpec`. |
| `Findings.FillOrKillCountsOwnSide` | src/orderBook.cpp:99-113 | As written, a FillOrKill buy of 10 limited at 100 passes the scan on a valid, uncrossed book that offers only 5, because the buyer side's own level at 90 is counted. |
| `Findings.OwnSideRefused` | src/orderBook.cpp:99-113 | The corrected scan refuses that buy, so AddOrder leaves the book as it was with no trades. |
| `Findings.OwnSideMatched` | src/orderBook.cpp:167-214 | Once that buy is inserted, matching trades 5 of it and leaves it resting alone at the best bid, still FillOrKill. |
| `Findings.FillOrKillPartlyTradedThenKilled` | src/orderBook.cpp:8-55 | As written, AddOrder admits that buy, trades 5 of its 10 in a non-empty trade list, and the clean-up (lines 216-229) then cancels it. The order is neither filled whole nor refused. The corrected AddOrder refuses it and leaves the book as it was. |
| `FillOrKill.TradedQuantity` | src/orderBook.cpp:201 | The quantity an order traded over a list of trades, summed over both legs. It is 0 for an order that appears in no trade. |
| `FillOrKill.AggregatesWithinSupply` | src/orderBook.cpp:103-125 | In a valid, uncrossed book, the uint32 aggregates of the opposite levels within a limit sum to no more than the quantity actually resting there. |
| `FillOrKill.FillKeepsLone` | src/orderBook.cpp:183-203 | A fill between the new order, alone at its level, and an opposite level within its limit keeps it alone there. What it trades comes off its remaining quantity, and it stays indexed only with quantity left. |
| `FillOrKill.FillTakesSupply` | src/orderBook.cpp:183-203 | The same fill takes what the new order trades off the quantity resting opposite within its limit. |
| `FillOrKill.DrainLone` | src/orderBook.cpp:181-204 | The inner loop keeps the new order alone at its level. What it trades comes off both its remaining quantity and the opposite supply. |
| `FillOrKill.PassLone` | src/orderBook.cpp:172-213 | One outer pass does the same, shrinks the index, and adds no level. |
| `FillOrKill.LoopLone` | src/orderBook.cpp:172-214 | The outer loop keeps the new order alone at its level and adds no level. What it trades comes off both its remaining quantity and the opposite supply. |
| `FillOrKill.UncrossedNoSupply` | src/orderBook.cpp:172-214 | When matching stops with the new order still resting, no opposite level is within its limit. |
| `FillOrKill.InsertLone` | src/orderBook.cpp:35-51 | Inserting a fresh order at a price its side has no level at leaves it alone there, keeps every other bid below every ask, and keeps the opposite supply. |
| `FillOrKill.AdmittedSetsUp` | src/orderBook.cpp:30-51 | A FillOrKill order the corrected check admits, once inserted, crosses the book, and the opposite supply within its limit covers its whole quantity. |
| `FillOrKill.LoopFillsLone` | src/orderBook.cpp:172-214 | When the opposite supply covers the new order, the matching loop trades all of it and removes it from the book. |
| `FillOrKill.FillOrKillAllOrNothing` | src/orderBook.cpp:8-55 | With the corrected check, AddOrder of a FillOrKill order is all or nothing. If refused, the book is unchanged and there are no trades. If admitted, the order trades its whole initial quantity and is not in the book afterwards. |

## Left out

- Concurrency: the thread-safe queue, the thread pool and the order-book manager are not part of this model. They exist for locking and threads.
- Order ids: `Helper::generateRandomOrderId` is not part of this model. `OrderBooks.OrderBook.ModifyOrder` takes the fresh id as a parameter. A fresh id that is already in use makes the re-add a no-op, as the duplicate-id guard does.
- Prices are `float` in the source. They are modelled as integers, because they are only compared and used as map keys.
- Timestamps come from the system clock and are never read, so orders carry none. `Instrument` is unused metadata.
- Order mutators and aliasing:
  - `Order` is a value. `fillOrder` and `adjustMarketOrderPrice` return the updated order (or the thrown error), and the book stores it back under its id.
  - `shared_ptr` aliasing is replaced by ids in the level sequences. The stored list iterator becomes a position computed by `EntryOf`.
  - The private `setRemainingQuantity` is folded into `FillOrder`.
- The `Order` getters and the `OrderBookLevelInfo` getters are datatype fields, and `Size` is `|orders|`. None of these has a contract of its own; `Size` is covered by `BookState.SizeZero`.
- OrderBooks.OrderBook.ModifyOrder: requires the id to be present. The source's `orders_[orderId]` default-inserts an entry and dereferences a null order for an unknown id (src/orderBook.cpp:84), which is undefined behaviour.
- OrderBooks.OrderBook.AddOrder: requires the class invariant and an unfilled order.
  - The constructor establishes the invariant: a valid book that is not crossed and has no empty level. Every public method keeps it.
  - Orders only come from the two constructors, which leave them unfilled. An order filled before being added is not modelled.
- OrderBooks.OrderBook.CancelOrder: requires the book invariant, for the same reason.
- OrderBooks.OrderBook.MatchOrder: requires the book invariant and no empty level. This holds between public operations under the corrected erase.
  - The as-written erase leaves an empty ask level, and the post-loop `front()` on it (src/orderBook.cpp:226-227) is undefined behaviour.
  - The as-written pass is only modelled up to the hang; what would follow is not.
- OrderBooks.OrderBook.MatchOrder: the source's single method is split into helper methods (`MatchFronts`, `DrainBestLevels`, `EraseEmptyLevels`, `CancelFillOrKillFront`), called in the source's order. `tradesMade.reserve` only sets capacity and is omitted.
- OrderBooks.OrderBook.CanFullyFillOrder: the model walks the opposite side's level map and reads each level's aggregate. This is the corrected scan (see Findings). The as-written scan of `priceLevel_` is modelled only as a set sum (`Findings.EligibleAsWritten`), not as a loop.
- OrderBooks.OrderBook.CanFullyFillOrder: the source's two loops, one per side, are one loop whose direction and limit test depend on the side. The buy loop's `rbegin()` over the `std::greater` map visits ascending prices; the sell loop's `begin()` visits descending prices.
- OrderBooks.OrderBook.CancelOrder: the source erases the index entry (src/orderBook.cpp:63) and then keeps using references into it. The model reads the order before erasing it.
- BookState.ApplyLevelAction: `totalOrders_` is an unbounded integer here, not a uint32. Under the invariant a count never goes below zero. More than 2^32-1 orders resting at one price is not modelled: the C++ counter would wrap there, and this model keeps counting.
- `trade.h` does not compile as shown, and `TradeInfo.h` is not part of this model. `Trade` is taken as the bid and ask `TradeInfo`, each (order id, quantity, price), as built at src/orderBook.cpp:201.
- Exceptions thrown by `fillOrder` inside `MatchOrder` cannot happen: the fill is the minimum of both remaining quantities (`OrderBooks.PassInSteps`). No exception path is modelled there.

## Findings

| source | as written | input that shows it | evidently intended | confidence | as-written member | corrected member |
|---|---|---|---|---|---|---|
| src/orderBook.cpp:210-213 | When the best ask level empties, `asks_.erase(bidPrice)` erases the ask map at the bid price. When both levels empty, `bidPrice` (a reference bound at line 176) also dangles: line 208 erases the bid node it refers to before line 212 reads it. The dangling read is not modelled. | An empty book, then a sell of 5 at 50, then a buy of 10 at 60. The fill empties the ask level at 50; nothing is erased at 60; the book stays crossed on an empty level, and every later pass changes nothing. A second input: sells of 5 at 50 and 5 at 60, then a buy of 5 at 60. Both best levels empty, and the live ask level at 60 is erased instead of the one at 50, so the sell at 60 stays indexed but sits in no level (`Findings.EraseAtBidPriceOrphans`). | `asks_.erase(askPrice)` | not executed | `Findings.EraseAtBidPriceHangs` | `Matching.MatchingLoop` |
| src/orderBook.cpp:99-129 | `CanFullyFillOrder` scans the shared `priceLevel_` map, so it counts the aggregates of the order's own side as well as the opposite side's. | A bid of 10 at 90 and an ask of 5 at 100, then a FillOrKill buy of 10 limited at 100. The scan sums 10 + 5 and admits the order. Matching trades 5 against the ask, and the clean-up then cancels the remaining 5. The order is neither filled whole nor killed whole. | sum only the opposite side's levels (`asks_` for a buy, `bids_` for a sell) | not executed | `Findings.FillOrKillPartlyTradedThenKilled` | `FillOrKill.FillOrKillAllOrNothing` |
| src/orderBook.cpp:156-159 | `OnCancelOrder` takes the order's initial quantity off the aggregate. | Bids at 100: order 1 (10, with 1 left) then order 2 (1); aggregate (2, 2). Cancelling order 1 leaves (1, 4294967288) for a level holding 1. | take the remaining quantity off | not executed | `Findings.CancelAsWrittenDrifts` | `BookOps.CancelPreservesInv` |
