/**
 * The OrderBook class of include/orderBook.h and src/orderBook.cpp: the four
 * maps as fields, and every operation as a method that updates them in
 * place, proved to leave exactly the book the value-level definitions give.
 */
module OrderBooks {
  import opened Common
  import opened Orders
  import opened BookState
  import opened BookOps
  import opened Matching
  import opened Admission
  import opened Snapshot

  /**
   * One pass of the inner matching loop, in the order MatchOrder performs
   * it: fill both fronts by the smaller remaining quantity, pop and unindex
   * each order that is now filled, record the trade, update the bid's
   * aggregate and then the ask's.
   */
  lemma PassInSteps(b: Book, bp: Price, ap: Price)
    requires CanPass(b, bp, ap)
    ensures var bidId, askId := b.bids[bp][0], b.asks[ap][0];
      && bidId in b.orders && askId in b.orders && bidId != askId
      && var bid, ask := b.orders[bidId], b.orders[askId];
         var q := Min(bid.remainingQuantity, ask.remainingQuantity);
         && bid.FillOrder(q).Ok? && ask.FillOrder(q).Ok?
         && var bf, af := bid.FillOrder(q).value, ask.FillOrder(q).value;
            var o1 := b.orders[bidId := bf][askId := af];
            var o2 := if bf.IsFilled() then o1 - {bidId} else o1;
            var o3 := if af.IsFilled() then o2 - {askId} else o2;
            var pl1 := ApplyLevelAction(b.priceLevel, bf.price, q, if bf.IsFilled() then Remove else Match);
            FillFronts(b, bp, ap) ==
              (Book(o3,
                    if bf.IsFilled() then b.bids[bp := b.bids[bp][1..]] else b.bids,
                    if af.IsFilled() then b.asks[ap := b.asks[ap][1..]] else b.asks,
                    ApplyLevelAction(pl1, af.price, q, if af.IsFilled() then Remove else Match)),
               Trade(TradeInfo(bidId, q, bf.price), TradeInfo(askId, q, af.price)))
  {
    SoundSide(b, Buy);
    SoundSide(b, Sell);
    FrontFacts(b, Buy, bp);
    FrontFacts(b, Sell, ap);
    var bidId, askId := b.bids[bp][0], b.asks[ap][0];
    var bid, ask := b.orders[bidId], b.orders[askId];
    var q := Min(bid.remainingQuantity, ask.remainingQuantity);
    AskFrontAfterBidFill(b, bp, ap, q);
    var b1 := FillFront(b, Buy, bp, q);
    FillFrontShape(b, Buy, bp, q);
    FillFrontShape(b1, Sell, ap, q);
    var bf, af := bid.FillOrder(q).value, ask.FillOrder(q).value;
    var o1 := b.orders[bidId := bf][askId := af];
    var o2 := if bf.IsFilled() then o1 - {bidId} else o1;
    var o3 := if af.IsFilled() then o2 - {askId} else o2;
    var r := FillFronts(b, bp, ap).0;
    assert r.orders == o3;
  }

  /** What an order of `quantity` still wants once `sum` is available: `quantity -= min(quantity, available)` taken in turn. */
  function Shortfall(quantity: Quantity, sum: nat): nat {
    if sum >= quantity then 0 else quantity - sum
  }

  /** One level of the scan: taking its available quantity off the shortfall is the shortfall of the larger sum. */
  lemma ScanStep(pl: map<Price, PriceLevelData>, seen: set<Price>, price: Price, quantity: Quantity)
    requires price !in seen
    requires seen != {} ==> Shortfall(quantity, SumAvailable(pl, seen)) > 0
    ensures var wanted := Shortfall(quantity, SumAvailable(pl, seen));
      wanted - Min(wanted, LevelAt(pl, price).availableQuantity) == Shortfall(quantity, SumAvailable(pl, seen + {price}))
  {
    SumAvailableRemove(pl, seen + {price}, price);
    assert seen + {price} - {price} == seen;
  }

  /** Moving a key from the unvisited prices to the visited ones keeps them complementary. */
  lemma MoveKey(all: set<Price>, seen: set<Price>, rest: set<Price>, x: Price)
    requires rest <= all && seen == all - rest && x in rest
    ensures rest - {x} <= all && seen + {x} == all - (rest - {x})
  {
  }

  /** Once the scan meets a price past the limit, every price it has not visited is past the limit too. */
  lemma PastLimit(side: Side, limit: Price, rest: set<Price>, price: Price)
    requires rest != {} && price == (if side == Buy then MinKey(rest) else MaxKey(rest))
    requires !EligiblePrice(side, limit, price)
    ensures forall x :: x in rest ==> !EligiblePrice(side, limit, x)
  {
  }

  /** Eligible opposite levels whose aggregates reach the order's quantity: the order can be filled. */
  lemma ScanReached(b: Book, side: Side, limit: Price, quantity: Quantity, seen: set<Price>)
    requires seen <= b.SideLevels(Opposite(side)).Keys && seen != {}
    requires forall p :: p in seen ==> EligiblePrice(side, limit, p)
    requires Shortfall(quantity, SumAvailable(b.priceLevel, seen)) == 0
    ensures CanFill(b, side, limit, quantity)
  {
    SumAvailableMono(b.priceLevel, seen, OppositeEligible(b, side, limit));
  }

  /** The scan visited every eligible opposite level and still wants more: the order cannot be filled. */
  lemma ScanFellShort(b: Book, side: Side, limit: Price, quantity: Quantity, seen: set<Price>, rest: set<Price>)
    requires rest <= b.SideLevels(Opposite(side)).Keys && seen == b.SideLevels(Opposite(side)).Keys - rest
    requires forall p :: p in seen ==> EligiblePrice(side, limit, p)
    requires forall x :: x in rest ==> !EligiblePrice(side, limit, x)
    requires seen != {} ==> Shortfall(quantity, SumAvailable(b.priceLevel, seen)) > 0
    ensures !CanFill(b, side, limit, quantity)
  {
    assert OppositeEligible(b, side, limit) == seen;
  }

  /** Cancelling keeps the invariant, every level non-empty and the book uncrossed. */
  lemma CancelKeepsValid(b: Book, id: OrderId)
    requires Inv(b)
    ensures Inv(Cancel(b, id))
    ensures NoEmptyLevels(b) && !Crossed(b) ==> NoEmptyLevels(Cancel(b, id)) && !Crossed(Cancel(b, id))
  {
    CancelPreservesInv(b, id);
    CancelKeepsUncrossed(b, id);
  }

  class OrderBook {
    /** The id index: `orders_`, with each entry's position given by `EntryOf`. */
    var orders: map<OrderId, Order>
    /** `bids_`: read from the highest price down. */
    var bids: Levels
    /** `asks_`: read from the lowest price up. */
    var asks: Levels
    /** `priceLevel_`: one aggregate map shared by both sides. */
    var priceLevel: map<Price, PriceLevelData>

    /** The four maps as a book value. */
    function State(): Book
      reads this
    {
      Book(orders, bids, asks, priceLevel)
    }

    /** Between public operations: the book invariant, no empty level, and the book not crossed. */
    ghost predicate Valid()
      reads this
    {
      Inv(State()) && NoEmptyLevels(State()) && !Crossed(State())
    }

    constructor()
      ensures Valid()
      ensures orders == map[] && bids == map[] && asks == map[] && priceLevel == map[]
    {
      orders, bids, asks, priceLevel := map[], map[], map[], map[];
      new;
      forall p ensures ExactAt(State(), p) {
        assert At(bids, p) == [] && At(asks, p) == [];
      }
    }

    /** The number of orders in the book. */
    function Size(): nat
      reads this
    {
      |orders|
    }

    // -------------------------------------------------------------------------
    // Aggregates

    /** Counts one order in, one order out, or none, and adds or takes `quantity` in uint32 arithmetic. */
    method UpdatePriceLevelData(price: Price, quantity: Quantity, action: Action)
      modifies this`priceLevel
      ensures priceLevel == ApplyLevelAction(old(priceLevel), price, quantity, action)
    {
      var current := LevelAt(priceLevel, price);
      var totalOrders := current.totalOrders + (if action == Add then 1 else if action == Remove then -1 else 0);
      var availableQuantity := current.availableQuantity;
      if action == Add {
        availableQuantity := Wrap32(availableQuantity + quantity);
      } else if action == Remove || action == Match {
        availableQuantity := Wrap32(availableQuantity - quantity);
      }
      priceLevel := priceLevel[price := PriceLevelData(totalOrders, availableQuantity)];
      if totalOrders == 0 {
        priceLevel := priceLevel - {price};
      }
    }

    method OnAddOrder(order: Order)
      modifies this`priceLevel
      ensures priceLevel == ApplyLevelAction(old(priceLevel), order.price, order.initialQuantity, Add)
    {
      UpdatePriceLevelData(order.price, order.initialQuantity, Add);
    }

    /** Counts a cancelled order out with the quantity it still had resting. */
    method OnCancelOrder(order: Order)
      modifies this`priceLevel
      ensures priceLevel == ApplyLevelAction(old(priceLevel), order.price, order.remainingQuantity, Remove)
    {
      UpdatePriceLevelData(order.price, order.remainingQuantity, Remove);
    }

    method OnMatchOrder(price: Price, quantity: Quantity, isFullyFilled: bool)
      modifies this`priceLevel
      ensures priceLevel == ApplyLevelAction(old(priceLevel), price, quantity, if isFullyFilled then Remove else Match)
    {
      UpdatePriceLevelData(price, quantity, if isFullyFilled then Remove else Match);
    }

    // -------------------------------------------------------------------------
    // CancelOrder

    method CancelOrder(orderId: OrderId)
      requires Inv(State())
      modifies this
      ensures State() == Cancel(old(State()), orderId)
      ensures old(Valid()) ==> Valid()
    {
      ghost var b := State();
      if orderId !in orders {
        CancelKeepsValid(b, orderId);
        return;
      }
      var entry := EntryOf(State(), orderId);
      var order := entry.order;
      orders := orders - {orderId};
      var price := order.price;
      if order.side == Buy {
        var level := RemoveAt(bids[price], entry.location);
        if level == [] {
          bids := bids - {price};
        } else {
          bids := bids[price := level];
        }
      } else {
        var level := RemoveAt(asks[price], entry.location);
        if level == [] {
          asks := asks - {price};
        } else {
          asks := asks[price := level];
        }
      }
      OnCancelOrder(order);
      assert State() == Cancel(b, orderId);
      CancelKeepsValid(b, orderId);
    }

    // -------------------------------------------------------------------------
    // CanFullyFillOrder

    /**
     * Walks the opposite side's levels from its best price (the asks upwards
     * for a buy, the bids downwards for a sell), stopping at the first price
     * past the limit, and takes the aggregate available there off what is
     * still wanted.
     */
    method CanFullyFillOrder(side: Side, limitPrice: Price, quantity: Quantity) returns (r: bool)
      ensures r == CanFill(State(), side, limitPrice, quantity)
    {
      if side == Buy && asks.Keys == {} {
        return false;
      }
      if side == Sell && bids.Keys == {} {
        return false;
      }
      ghost var book := State();
      var levels := if side == Buy then asks.Keys else bids.Keys;
      var aggregates := priceLevel;
      var wanted := quantity;
      var rest := levels;
      ghost var seen: set<Price> := {};
      while rest != {}
        invariant rest <= levels && seen == levels - rest
        invariant forall p :: p in seen ==> EligiblePrice(side, limitPrice, p)
        invariant wanted == Shortfall(quantity, SumAvailable(aggregates, seen))
        invariant seen != {} ==> wanted > 0
        decreases |rest|
      {
        var price := if side == Buy then MinKey(rest) else MaxKey(rest);
        if !EligiblePrice(side, limitPrice, price) {
          PastLimit(side, limitPrice, rest, price);
          break;
        }
        ScanStep(aggregates, seen, price, quantity);
        MoveKey(levels, seen, rest, price);
        wanted := wanted - Min(wanted, LevelAt(aggregates, price).availableQuantity);
        seen := seen + {price};
        rest := rest - {price};
        if wanted == 0 {
          ScanReached(book, side, limitPrice, quantity, seen);
          return true;
        }
      }
      ScanFellShort(book, side, limitPrice, quantity, seen, rest);
      return false;
    }

    // -------------------------------------------------------------------------
    // MatchOrder

    /**
     * One pass of MatchOrder's inner loop: fills the front bid at `bidPrice`
     * and the front ask at `askPrice` by the smaller of their remaining
     * quantities, pops and unindexes each that is now filled, records the
     * trade and updates the bid's aggregate and then the ask's.
     */
    method MatchFronts(bidPrice: Price, askPrice: Price) returns (trade: Trade)
      requires CanPass(State(), bidPrice, askPrice)
      modifies this
      ensures (State(), trade) == FillFronts(old(State()), bidPrice, askPrice)
    {
      PassInSteps(State(), bidPrice, askPrice);
      var bidId, askId := bids[bidPrice][0], asks[askPrice][0];
      var bidOrder, askOrder := orders[bidId], orders[askId];
      var minQuantity := Min(bidOrder.remainingQuantity, askOrder.remainingQuantity);
      bidOrder := bidOrder.FillOrder(minQuantity).value;
      askOrder := askOrder.FillOrder(minQuantity).value;
      orders := orders[bidId := bidOrder][askId := askOrder];
      if bidOrder.IsFilled() {
        bids := bids[bidPrice := bids[bidPrice][1..]];
        orders := orders - {bidId};
      }
      if askOrder.IsFilled() {
        asks := asks[askPrice := asks[askPrice][1..]];
        orders := orders - {askId};
      }
      trade := Trade(TradeInfo(bidId, minQuantity, bidOrder.price), TradeInfo(askId, minQuantity, askOrder.price));
      OnMatchOrder(bidOrder.price, minQuantity, bidOrder.IsFilled());
      OnMatchOrder(askOrder.price, minQuantity, askOrder.IsFilled());
    }

    /** MatchOrder's inner loop: passes until the level at `bidPrice` or the one at `askPrice` is empty. */
    method DrainBestLevels(bidPrice: Price, askPrice: Price) returns (trades: seq<Trade>)
      requires Inv(State()) && bidPrice in bids && askPrice in asks
      modifies this
      ensures (State(), trades) == DrainLevels(old(State()), bidPrice, askPrice)
    {
      trades := [];
      ghost var drained := DrainLevels(State(), bidPrice, askPrice);
      ConcatNil(drained.1);
      while bids[bidPrice] != [] && asks[askPrice] != []
        invariant Inv(State()) && bidPrice in bids && askPrice in asks
        invariant DrainLevels(State(), bidPrice, askPrice).0 == drained.0
        invariant trades + DrainLevels(State(), bidPrice, askPrice).1 == drained.1
        decreases |orders|
      {
        ghost var before := State();
        FillFrontsPreservesInv(before, bidPrice, askPrice);
        FillFrontsShrinks(before, bidPrice, askPrice);
        var trade := MatchFronts(bidPrice, askPrice);
        ghost var later := DrainLevels(State(), bidPrice, askPrice).1;
        ConcatAssoc(trades, [trade], later);
        trades := trades + [trade];
      }
      ConcatNil(trades);
    }

    /** Cancels the order at the front of side `s`'s best level if it is a FillOrKill order. */
    method CancelFillOrKillFront(s: Side)
      requires Inv(State()) && NoEmptyLevels(State())
      modifies this
      ensures State() == KillFillOrKillFront(old(State()), s)
    {
      var levels := if s == Buy then bids else asks;
      if levels.Keys != {} {
        var best := if s == Buy then MaxKey(levels.Keys) else MinKey(levels.Keys);
        SideFacts(State(), s);
        FrontFacts(State(), s, best);
        var order := orders[levels[best][0]];
        if order.orderType == FillOrKillOrder {
          CancelOrder(order.orderId);
        }
      }
    }

    /** Erases the level at `bidPrice` if it emptied, and the ask level at `askPrice` if it emptied. */
    method EraseEmptyLevels(bidPrice: Price, askPrice: Price)
      modifies this`bids, this`asks
      ensures State() == EraseEmpty(old(State()), bidPrice, askPrice)
    {
      if bidPrice in bids && bids[bidPrice] == [] {
        bids := bids - {bidPrice};
      }
      if askPrice in asks && asks[askPrice] == [] {
        asks := asks - {askPrice};
      }
    }

    /**
     * While both sides hold a level and the best bid reaches the best ask,
     * drains the two best levels against each other and erases what
     * emptied; then cancels a FillOrKill order left at the front of the best
     * bid level and of the best ask level.
     */
    method MatchOrder() returns (trades: seq<Trade>)
      requires Inv(State()) && NoEmptyLevels(State())
      modifies this
      ensures (State(), trades) == MatchOrderSpec(old(State()))
    {
      trades := [];
      ghost var goal := MatchingLoop(State());
      ConcatNil(goal.1);
      while true
        invariant Inv(State()) && NoEmptyLevels(State())
        invariant MatchingLoop(State()).0 == goal.0 && trades + MatchingLoop(State()).1 == goal.1
        decreases |orders|
      {
        if bids.Keys == {} || asks.Keys == {} {
          break;
        }
        var bidPrice, askPrice := MaxKey(bids.Keys), MinKey(asks.Keys);
        if bidPrice < askPrice {
          break;
        }
        ghost var start := State();
        DrainLevelsFacts(start, bidPrice, askPrice);
        var passTrades := DrainBestLevels(bidPrice, askPrice);
        EraseEmptyLevels(bidPrice, askPrice);
        PassNoEmpty(start, bidPrice, askPrice);
        ConcatAssoc(trades, passTrades, MatchingLoop(State()).1);
        trades := trades + passTrades;
      }
      ConcatNil(trades);
      assert State() == goal.0 && trades == goal.1;
      CancelFillOrKillFront(Buy);
      CancelFillOrKillFront(Sell);
    }

    // -------------------------------------------------------------------------
    // AddOrder and ModifyOrder

    /**
     * Rejects a known id, prices a market order at the best opposite level
     * (or rejects it when there is none), rejects a FillOrKill order that
     * cannot be filled, appends the order to its level, counts it in and
     * matches.
     */
    method AddOrder(order: Order) returns (trades: seq<Trade>)
      requires Valid() && order.Unfilled()
      modifies this
      ensures Valid()
      ensures (State(), trades) == AddSpec(old(State()), order)
    {
      if order.orderId in orders {
        return [];
      }
      var o := order;
      if o.orderType == MarketOrder {
        if o.side == Buy && asks.Keys != {} {
          o := o.AdjustMarketOrderPrice(MinKey(asks.Keys)).value;
        } else if o.side == Sell && bids.Keys != {} {
          o := o.AdjustMarketOrderPrice(MaxKey(bids.Keys)).value;
        } else {
          return [];
        }
      }
      if o.orderType == FillOrKillOrder {
        var fillable := CanFullyFillOrder(o.side, o.price, o.initialQuantity);
        if !fillable {
          return [];
        }
      }
      ghost var b := State();
      assert Admit(b, order) == Some(o);
      InsertPreservesInv(b, o);
      if o.side == Buy {
        bids := bids[o.price := At(bids, o.price) + [o.orderId]];
      } else {
        asks := asks[o.price := At(asks, o.price) + [o.orderId]];
      }
      orders := orders[o.orderId := o];
      OnAddOrder(o);
      assert State() == Insert(b, o);
      trades := MatchOrder();
    }

    /**
     * Cancels the order and adds, under `newOrderId`, an order of the same
     * type with the requested side and quantity, priced as requested unless
     * the original was a market order; the trades of the add are dropped.
     */
    method ModifyOrder(orderId: OrderId, side: Side, price: Price, quantity: Quantity, newOrderId: OrderId)
      requires Valid() && orderId in orders
      modifies this
      ensures Valid()
      ensures State() == ModifySpec(old(State()), orderId, side, price, quantity, newOrderId)
    {
      var existingOrder := orders[orderId];
      CancelPreservesInv(State(), orderId);
      CancelKeepsUncrossed(State(), orderId);
      CancelOrder(orderId);
      var newOrder := if existingOrder.orderType == MarketOrder
        then NewMarketOrder(newOrderId, existingOrder.orderType, side, quantity)
        else NewPricedOrder(newOrderId, existingOrder.orderType, side, quantity, price);
      var _ := AddOrder(newOrder);
    }

    // -------------------------------------------------------------------------
    // GetOrderBookInfo

    /** Every bid level from the highest price down and every ask level from the lowest up, with the quantity resting there. */
    method GetOrderBookInfo() returns (info: OrderBookLevelInfo)
      ensures Lists(info.bidsLevelInfos, bids, orders, Buy)
      ensures Lists(info.asksLevelInfos, asks, orders, Sell)
    {
      var bidsPriceInfos := ListLevels(bids, orders, Buy);
      var asksPriceInfos := ListLevels(asks, orders, Sell);
      info := OrderBookLevelInfo(bidsPriceInfos, asksPriceInfos);
    }
  }
}
