/** The order value and its remaining-quantity state machine (include/order.h). */
module Orders {
  import opened Common

  datatype Side = Buy | Sell

  datatype OrderType = MarketOrder | LimitOrder | FillOrKillOrder | DayOrder | GoodTillCancelOrder

  /** The price a market order carries until it is resolved against the book. */
  const INVALID_PRICE: Price := -1

  /** The two exceptions `Order` throws. */
  datatype OrderError = InvalidOperation | QuantityExceeded

  datatype Result<T> = Ok(value: T) | Err(error: OrderError)

  /**
   * An order. Id, type, side and initial quantity never change; only the
   * price (once, for a market order) and the remaining quantity do, and the
   * operations that change them return the updated order.
   */
  datatype Order = Order(
    orderId: OrderId,
    orderType: OrderType,
    side: Side,
    initialQuantity: Quantity,
    remainingQuantity: Quantity,
    price: Price)
  {
    predicate IsFilled() {
      remainingQuantity == 0
    }

    /** The order's own invariant: 0 <= remaining <= initial. */
    predicate WellFormed() {
      remainingQuantity <= initialQuantity
    }

    /** As the constructors leave it: nothing filled yet. */
    predicate Unfilled() {
      remainingQuantity == initialQuantity
    }

    /** The fields that have no mutator agree. */
    predicate SameIdentity(other: Order) {
      orderId == other.orderId && orderType == other.orderType &&
      side == other.side && initialQuantity == other.initialQuantity
    }

    /** Resolves a market order's price; any other order type is refused. */
    function AdjustMarketOrderPrice(p: Price): (r: Result<Order>)
      ensures r.Ok? <==> orderType == MarketOrder
      ensures r.Err? ==> r.error == InvalidOperation
      ensures r.Ok? ==> r.value.SameIdentity(this) && r.value.price == p
                        && r.value.remainingQuantity == remainingQuantity
    {
      if orderType != MarketOrder then Err(InvalidOperation)
      else Ok(this.(price := p))
    }

    /** Takes `q` off the remaining quantity; more than remains is refused. */
    function FillOrder(q: Quantity): (r: Result<Order>)
      ensures r.Ok? <==> q <= remainingQuantity
      ensures r.Err? ==> r.error == QuantityExceeded
      ensures r.Ok? ==> r.value.SameIdentity(this) && r.value.price == price
                        && r.value.remainingQuantity == remainingQuantity - q
      ensures r.Ok? ==> (r.value.IsFilled() <==> q == remainingQuantity)
      ensures r.Ok? && WellFormed() ==> r.value.WellFormed()
    {
      if q > remainingQuantity then Err(QuantityExceeded)
      else Ok(this.(remainingQuantity := remainingQuantity - q))
    }
  }

  /** The market-order constructor: no price yet. */
  function NewMarketOrder(id: OrderId, t: OrderType, s: Side, qty: Quantity): (o: Order)
    ensures o.orderId == id && o.orderType == t && o.side == s && o.initialQuantity == qty
    ensures o.Unfilled() && o.WellFormed() && o.price == INVALID_PRICE
  {
    Order(id, t, s, qty, qty, INVALID_PRICE)
  }

  /** The constructor for every other order: priced. */
  function NewPricedOrder(id: OrderId, t: OrderType, s: Side, qty: Quantity, p: Price): (o: Order)
    ensures o.orderId == id && o.orderType == t && o.side == s && o.initialQuantity == qty
    ensures o.Unfilled() && o.WellFormed() && o.price == p
  {
    Order(id, t, s, qty, qty, p)
  }
}
