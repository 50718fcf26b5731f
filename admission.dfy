/**
 * Which orders AddOrder accepts (the duplicate-id guard, market-price
 * resolution and the FillOrKill pre-flight CanFullyFillOrder in
 * src/orderBook.cpp), and AddOrder and ModifyOrder as a whole.
 */
module Admission {
  import opened Common
  import opened Orders
  import opened BookState
  import opened BookOps
  import opened Matching

  // ---------------------------------------------------------------------------
  // CanFullyFillOrder

  /** The exact sum of the aggregate quantities read at the prices in `s` (zero where no aggregate is kept). */
  function SumAvailable(pl: map<Price, PriceLevelData>, s: set<Price>): nat
    decreases |s|
  {
    if s == {} then 0
    else
      var p := MinKey(s);
      LevelAt(pl, p).availableQuantity + SumAvailable(pl, s - {p})
  }

  /** Any price of the set can be taken out first. */
  lemma {:induction false} SumAvailableRemove(pl: map<Price, PriceLevelData>, s: set<Price>, x: Price)
    requires x in s
    ensures SumAvailable(pl, s) == LevelAt(pl, x).availableQuantity + SumAvailable(pl, s - {x})
    decreases |s|
  {
    var m := MinKey(s);
    if x != m {
      SumAvailableRemove(pl, s - {m}, x);
      var t := s - {x};
      assert m in t;
      assert MinKey(t) == m by {
        var k := MinKey(t);
        assert k <= m && m <= k;
      }
      assert t - {m} == s - {m} - {x};
    }
  }

  /** A superset sums to at least as much. */
  lemma {:induction false} SumAvailableMono(pl: map<Price, PriceLevelData>, s: set<Price>, t: set<Price>)
    requires s <= t
    ensures SumAvailable(pl, s) <= SumAvailable(pl, t)
    decreases |t|
  {
    if s != t {
      assert (forall y :: y !in t - s) ==> s == t by {
        if forall y :: y !in t - s {
          forall y | y in t ensures y in s { assert y !in t - s; }
        }
      }
      var x :| x in t - s;
      SumAvailableRemove(pl, t, x);
      SumAvailableMono(pl, s, t - {x});
    }
  }

  /** Whether a level at `p` may fill an order of side `s` limited at `limit`. */
  predicate EligiblePrice(s: Side, limit: Price, p: Price) {
    if s == Buy then p <= limit else p >= limit
  }

  /** The opposite side's level prices an order of side `s` limited at `limit` may trade at. */
  function OppositeEligible(b: Book, s: Side, limit: Price): (e: set<Price>)
    ensures e <= b.SideLevels(Opposite(s)).Keys
    ensures forall p :: p in e <==> p in b.SideLevels(Opposite(s)) && EligiblePrice(s, limit, p)
  {
    set p | p in b.SideLevels(Opposite(s)) && EligiblePrice(s, limit, p)
  }

  /**
   * CanFullyFillOrder's answer: some opposite level is within the limit, and
   * the aggregates read at those levels together reach `qty`.
   */
  predicate CanFill(b: Book, s: Side, limit: Price, qty: Quantity) {
    && OppositeEligible(b, s, limit) != {}
    && SumAvailable(b.priceLevel, OppositeEligible(b, s, limit)) >= qty
  }

  // ---------------------------------------------------------------------------
  // AddOrder

  datatype Option<T> = None | Some(value: T)

  /**
   * The order AddOrder inserts, or None when it returns without touching the
   * book: a known id, a market order with no opposite level, a FillOrKill
   * order that cannot be filled. A market order takes the best opposite price.
   */
  function Admit(b: Book, o: Order): (r: Option<Order>)
    ensures o.orderId in b.orders ==> r == None
    ensures r.Some? ==> r.value.SameIdentity(o) && r.value.remainingQuantity == o.remainingQuantity
    ensures r.Some? && o.orderType != MarketOrder ==> r.value == o
    ensures o.orderId !in b.orders && o.orderType == MarketOrder ==>
      (r.Some? <==> b.SideLevels(Opposite(o.side)).Keys != {}) &&
      (r.Some? ==> r.value.price == BestPrice(b, Opposite(o.side)))
    ensures o.orderId !in b.orders && o.orderType == FillOrKillOrder ==>
      (r.Some? <==> CanFill(b, o.side, o.price, o.initialQuantity))
    ensures o.orderId !in b.orders && o.orderType != MarketOrder && o.orderType != FillOrKillOrder ==> r == Some(o)
  {
    if o.orderId in b.orders then None
    else if o.orderType == MarketOrder then
      if o.side == Buy && b.asks.Keys != {} then
        Some(o.AdjustMarketOrderPrice(BestPrice(b, Sell)).value)
      else if o.side == Sell && b.bids.Keys != {} then
        Some(o.AdjustMarketOrderPrice(BestPrice(b, Buy)).value)
      else None
    else if o.orderType == FillOrKillOrder && !CanFill(b, o.side, o.price, o.initialQuantity) then None
    else Some(o)
  }

  /** AddOrder: admit, insert at the back of the level, then match. */
  function AddSpec(b: Book, o: Order): (r: (Book, seq<Trade>))
    requires Inv(b) && NoEmptyLevels(b) && !Crossed(b) && o.Unfilled()
    ensures Inv(r.0) && NoEmptyLevels(r.0) && !Crossed(r.0)
    ensures forall t :: t in r.1 ==> t.bidTrade.price >= t.askTrade.price && t.bidTrade.quantity == t.askTrade.quantity
    ensures Admit(b, o) == None ==> r == (b, [])
    ensures r.0.orders.Keys <= b.orders.Keys + {o.orderId}
  {
    match Admit(b, o)
    case None => (b, [])
    case Some(a) =>
      InsertPreservesInv(b, a);
      MatchOrderSpec(Insert(b, a))
  }

  /** The order is indexed as itself and its id is the last of its level. */
  ghost predicate RestsAtBack(b: Book, o: Order) {
    var L := At(b.SideLevels(o.side), o.price);
    o.orderId in b.orders && b.orders[o.orderId] == o && L != [] && L[|L| - 1] == o.orderId
  }

  /** Cancelling another order leaves a resting order at the back of its level. */
  lemma CancelKeepsBack(b: Book, id: OrderId, a: Order)
    requires Listed(b) && RestsAtBack(b, a) && id != a.orderId
    ensures RestsAtBack(Cancel(b, id), a)
  {
    if id in b.orders {
      CancelShape(b, id);
      var o := b.orders[id];
      var r := Cancel(b, id);
      if o.side == a.side && o.price == a.price {
        var L := At(b.SideLevels(o.side), o.price);
        assert id in L && o.price in b.SideLevels(o.side);
        var k := IndexOf(L, id);
        assert k < |L| - 1;
        assert At(r.SideLevels(a.side), a.price) == RemoveAt(L, k);
      }
    }
  }

  /** The FillOrKill clean-up leaves a resting order of another type where it is. */
  lemma KillKeepsBack(b: Book, s: Side, a: Order)
    requires Inv(b) && NoEmptyLevels(b) && RestsAtBack(b, a) && a.orderType != FillOrKillOrder
    ensures RestsAtBack(KillFillOrKillFront(b, s), a)
  {
    if b.SideLevels(s).Keys != {} {
      var id := b.SideLevels(s)[BestPrice(b, s)][0];
      if b.orders[id].orderType == FillOrKillOrder {
        CancelKeepsBack(b, id, a);
      }
    }
  }

  /**
   * An admitted order that is not FillOrKill and does not cross the book
   * rests at the back of its level, indexed as itself, and makes no trade.
   */
  lemma AddRestsAtBack(b: Book, o: Order)
    requires Inv(b) && NoEmptyLevels(b) && !Crossed(b) && o.Unfilled()
    requires Admit(b, o).Some? && Admit(b, o).value.orderType != FillOrKillOrder
    requires !Crossed(Insert(b, Admit(b, o).value))
    ensures RestsAtBack(AddSpec(b, o).0, Admit(b, o).value) && AddSpec(b, o).1 == []
  {
    var a := Admit(b, o).value;
    InsertPreservesInv(b, a);
    var b1 := Insert(b, a);
    assert RestsAtBack(b1, a);
    KillKeepsBack(b1, Buy, a);
    KillKeepsBack(KillFillOrKillFront(b1, Buy), Sell, a);
  }

  /**
   * An admitted order that is not FillOrKill either rests in the book after
   * AddOrder, with its own identity, or took part in one of its trades; any
   * resting order that left, FillOrKill orders apart, traded too, and every
   * order that stays keeps its identity.
   */
  lemma AddEntersOrTrades(b: Book, o: Order)
    requires Inv(b) && NoEmptyLevels(b) && !Crossed(b) && o.Unfilled()
    requires Admit(b, o).Some? && Admit(b, o).value.orderType != FillOrKillOrder
    ensures var a, r := Admit(b, o).value, AddSpec(b, o);
      && (a.orderId in r.0.orders || a.orderId in TradedIds(r.1))
      && (a.orderId in r.0.orders ==> r.0.orders[a.orderId].SameIdentity(a))
    ensures var r := AddSpec(b, o);
      && (forall id :: id in r.0.orders && id in b.orders ==> r.0.orders[id].SameIdentity(b.orders[id]))
      && (forall id :: id in b.orders && id !in r.0.orders && b.orders[id].orderType != FillOrKillOrder ==> id in TradedIds(r.1))
  {
    var a := Admit(b, o).value;
    InsertPreservesInv(b, a);
    var b1 := Insert(b, a);
    assert AddSpec(b, o) == MatchOrderSpec(b1);
    MatchOrderRetires(b1);
    RetiresAfterInsert(b, a, b1, AddSpec(b, o));
  }

  /** What MatchOrder keeps of a book that was `b` plus the order `a`, stated about `b` and `a`. */
  lemma RetiresAfterInsert(b: Book, a: Order, b1: Book, r: (Book, seq<Trade>))
    requires a.orderId !in b.orders && a.orderType != FillOrKillOrder && b1.orders == b.orders[a.orderId := a]
    requires r.0.orders.Keys <= b1.orders.Keys
    requires forall id :: id in r.0.orders ==> r.0.orders[id].SameIdentity(b1.orders[id])
    requires forall id :: id in b1.orders && id !in r.0.orders && b1.orders[id].orderType != FillOrKillOrder ==> id in TradedIds(r.1)
    ensures a.orderId in r.0.orders || a.orderId in TradedIds(r.1)
    ensures a.orderId in r.0.orders ==> r.0.orders[a.orderId].SameIdentity(a)
    ensures forall id :: id in r.0.orders && id in b.orders ==> r.0.orders[id].SameIdentity(b.orders[id])
    ensures forall id :: id in b.orders && id !in r.0.orders && b.orders[id].orderType != FillOrKillOrder ==> id in TradedIds(r.1)
  {
    assert b1.orders[a.orderId] == a;
    assert forall id :: id in b.orders ==> b1.orders[id] == b.orders[id];
  }

  // ---------------------------------------------------------------------------
  // ModifyOrder

  /** The replacement order: the fresh id, the old type, the requested side and quantity, and no price for a market order. */
  function Replacement(e: Order, newId: OrderId, s: Side, price: Price, qty: Quantity): (n: Order)
    ensures n.orderId == newId && n.orderType == e.orderType && n.side == s
    ensures n.initialQuantity == qty && n.Unfilled()
    ensures n.price == if e.orderType == MarketOrder then INVALID_PRICE else price
  {
    if e.orderType == MarketOrder then NewMarketOrder(newId, e.orderType, s, qty)
    else NewPricedOrder(newId, e.orderType, s, qty, price)
  }

  /** ModifyOrder: cancel the order, then add its replacement; the trades of the add are dropped. */
  function ModifySpec(b: Book, id: OrderId, s: Side, price: Price, qty: Quantity, newId: OrderId): (r: Book)
    requires Inv(b) && NoEmptyLevels(b) && !Crossed(b) && id in b.orders
    ensures Inv(r) && NoEmptyLevels(r) && !Crossed(r)
    ensures newId != id ==> id !in r.orders
    ensures r.orders.Keys <= (b.orders.Keys - {id}) + {newId}
    ensures Admit(Cancel(b, id), Replacement(b.orders[id], newId, s, price, qty)) == None ==> r == Cancel(b, id)
  {
    CancelPreservesInv(b, id);
    CancelKeepsUncrossed(b, id);
    AddSpec(Cancel(b, id), Replacement(b.orders[id], newId, s, price, qty)).0
  }

  /**
   * A replacement that is admitted, is not FillOrKill and does not cross the
   * book rests at the back of its level: the modified order loses its time
   * priority, and the old id is gone unless the new one reuses it.
   */
  lemma ModifyRestsAtBack(b: Book, id: OrderId, s: Side, price: Price, qty: Quantity, newId: OrderId)
    requires Inv(b) && NoEmptyLevels(b) && !Crossed(b) && id in b.orders
    requires var c, n := Cancel(b, id), Replacement(b.orders[id], newId, s, price, qty);
      && Admit(c, n).Some? && Admit(c, n).value.orderType != FillOrKillOrder
      && !Crossed(Insert(c, Admit(c, n).value))
    ensures var c, n := Cancel(b, id), Replacement(b.orders[id], newId, s, price, qty);
      RestsAtBack(ModifySpec(b, id, s, price, qty, newId), Admit(c, n).value)
    ensures newId != id ==> id !in ModifySpec(b, id, s, price, qty, newId).orders
  {
    CancelPreservesInv(b, id);
    CancelKeepsUncrossed(b, id);
    AddRestsAtBack(Cancel(b, id), Replacement(b.orders[id], newId, s, price, qty));
  }
}
