/**
 * The state of one instrument's book (include/orderBook.h) as a value, the
 * invariant that ties its four maps together, and the per-price aggregate
 * update (UpdatePriceLevelData in src/orderBook.cpp).
 */
module BookState {
  import opened Common
  import opened Orders

  /** The three aggregate updates. */
  datatype Action = Add | Remove | Match

  /** `totalOrders_` is kept unbounded here; `availableQuantity_` wraps as a uint32. */
  datatype PriceLevelData = PriceLevelData(totalOrders: int, availableQuantity: Quantity)

  /** One leg of a trade: the filled order, the quantity exchanged and that order's price. */
  datatype TradeInfo = TradeInfo(orderId: OrderId, quantity: Quantity, price: Price)

  datatype Trade = Trade(bidTrade: TradeInfo, askTrade: TradeInfo)

  /** One row of the snapshot: a price and the quantity resting there. */
  datatype PriceLevelInfo = PriceLevelInfo(price: Price, quantity: Quantity)

  datatype OrderBookLevelInfo = OrderBookLevelInfo(bidsLevelInfos: seq<PriceLevelInfo>, asksLevelInfos: seq<PriceLevelInfo>)

  /** An id-index entry: the order and the position of its id in its level's FIFO sequence. */
  datatype OrderEntry = OrderEntry(order: Order, location: nat)

  /** One side of the book: price to the FIFO sequence of the ids resting there. */
  type Levels = map<Price, seq<OrderId>>

  /**
   * `orders_`, `bids_`, `asks_` and `priceLevel_`. Bids are read from the
   * highest key down and asks from the lowest key up; `priceLevel_` is one
   * map shared by both sides.
   */
  datatype Book = Book(
    orders: map<OrderId, Order>,
    bids: Levels,
    asks: Levels,
    priceLevel: map<Price, PriceLevelData>)
  {
    function SideLevels(s: Side): Levels {
      if s == Buy then bids else asks
    }

    function WithSide(s: Side, m: Levels): Book {
      if s == Buy then this.(bids := m) else this.(asks := m)
    }
  }

  function Opposite(s: Side): Side {
    if s == Buy then Sell else Buy
  }

  /** The level at `p`, empty when there is none. */
  function At(m: Levels, p: Price): seq<OrderId> {
    if p in m then m[p] else []
  }

  function LevelAt(pl: map<Price, PriceLevelData>, p: Price): PriceLevelData {
    if p in pl then pl[p] else PriceLevelData(0, 0)
  }

  /**
   * UpdatePriceLevelData: Add counts one more order and `qty` more quantity,
   * Remove one order fewer and `qty` less, Match leaves the count and takes
   * `qty` off; a level whose count reaches zero is erased. A missing level
   * starts from zero, as `operator[]` default-inserts it.
   */
  function ApplyLevelAction(pl: map<Price, PriceLevelData>, price: Price, qty: Quantity, action: Action): (r: map<Price, PriceLevelData>)
    ensures forall p :: p != price ==> (p in r <==> p in pl) && (p in r ==> r[p] == pl[p])
    ensures var before := LevelAt(pl, price);
            var count := LevelAt(r, price).totalOrders;
            (action == Add ==> count == before.totalOrders + 1) &&
            (action == Remove ==> count == before.totalOrders - 1) &&
            (action == Match ==> count == before.totalOrders)
    ensures var before := LevelAt(pl, price);
            (price in r ==>
               r[price].availableQuantity ==
               Wrap32(if action == Add then before.availableQuantity + qty else before.availableQuantity - qty))
    ensures price in r <==> LevelAt(r, price).totalOrders != 0
  {
    var before := LevelAt(pl, price);
    var count := before.totalOrders + (if action == Add then 1 else if action == Remove then -1 else 0);
    var available := if action == Add then Wrap32(before.availableQuantity + qty) else Wrap32(before.availableQuantity - qty);
    if count == 0 then pl - {price} else pl[price := PriceLevelData(count, available)]
  }

  // ---------------------------------------------------------------------------
  // One level's FIFO sequence of ids

  ghost predicate Unique(s: seq<OrderId>) {
    forall i, j :: 0 <= i < j < |s| ==> s[i] != s[j]
  }

  /** The position of the first occurrence of `id`: what the stored iterator points at. */
  function IndexOf(s: seq<OrderId>, id: OrderId): (k: nat)
    requires id in s
    ensures k < |s| && s[k] == id && id !in s[..k]
  {
    if s[0] == id then 0 else
      var k := 1 + IndexOf(s[1..], id);
      assert s[..k] == [s[0]] + s[1..][..k - 1];
      k
  }

  /** `std::list::erase` at position `k`. */
  function RemoveAt(s: seq<OrderId>, k: nat): (r: seq<OrderId>)
    requires k < |s|
    ensures |r| == |s| - 1
    ensures forall i :: 0 <= i < |r| ==> r[i] == (if i < k then s[i] else s[i + 1])
  {
    s[..k] + s[k + 1..]
  }

  /** Erasing one position of a sequence without repeats drops exactly that id and keeps every other. */
  lemma RemoveAtMembers(s: seq<OrderId>, k: nat)
    requires k < |s| && Unique(s)
    ensures Unique(RemoveAt(s, k))
    ensures s[k] !in RemoveAt(s, k)
    ensures forall x :: x in RemoveAt(s, k) <==> x in s && x != s[k]
  {
    var r := RemoveAt(s, k);
    forall x | x in s && x != s[k]
      ensures x in r
    {
      var j :| 0 <= j < |s| && s[j] == x;
      if j < k { assert r[j] == x; } else { assert r[j - 1] == x; }
    }
  }

  /** Appending an id not yet present keeps the sequence free of repeats. */
  lemma UniqueAppend(s: seq<OrderId>, id: OrderId)
    requires Unique(s) && id !in s
    ensures Unique(s + [id])
  {
    var t := s + [id];
    forall i, j | 0 <= i < j < |t|
      ensures t[i] != t[j]
    {
      if j == |s| { assert t[i] == s[i]; assert s[i] in s; }
    }
  }

  // ---------------------------------------------------------------------------
  // Sums of remaining quantities

  function RemainingOf(orders: map<OrderId, Order>, id: OrderId): Quantity {
    if id in orders then orders[id].remainingQuantity else 0
  }

  /** The exact (unwrapped) sum of the remaining quantities of the ids in `ids`. */
  function Remaining(orders: map<OrderId, Order>, ids: seq<OrderId>): nat {
    if ids == [] then 0 else RemainingOf(orders, ids[0]) + Remaining(orders, ids[1..])
  }

  lemma {:induction false} RemainingConcat(orders: map<OrderId, Order>, a: seq<OrderId>, b: seq<OrderId>)
    ensures Remaining(orders, a + b) == Remaining(orders, a) + Remaining(orders, b)
  {
    if a != [] {
      assert (a + b)[1..] == a[1..] + b;
      RemainingConcat(orders, a[1..], b);
    } else {
      assert a + b == b;
    }
  }

  /** Orders that agree on every id in `ids` give the same sum. */
  lemma {:induction false} RemainingFrame(o1: map<OrderId, Order>, o2: map<OrderId, Order>, ids: seq<OrderId>)
    requires forall id :: id in ids ==> RemainingOf(o1, id) == RemainingOf(o2, id)
    ensures Remaining(o1, ids) == Remaining(o2, ids)
  {
    if ids != [] {
      assert ids[0] in ids;
      RemainingFrame(o1, o2, ids[1..]);
    }
  }

  /** The same, when the only difference is one id that does not occur in `ids`. */
  lemma RemainingFrameOne(o1: map<OrderId, Order>, o2: map<OrderId, Order>, x: OrderId, ids: seq<OrderId>)
    requires x !in ids
    requires forall id :: id != x ==> RemainingOf(o1, id) == RemainingOf(o2, id)
    ensures Remaining(o1, ids) == Remaining(o2, ids)
  {
    RemainingFrame(o1, o2, ids);
  }

  // ---------------------------------------------------------------------------
  // Best prices: `begin()` of a map ordered by std::greater or std::less

  /** A finite non-empty set of prices has a greatest element. */
  lemma {:induction false} MaxExists(s: set<Price>)
    requires s != {}
    ensures exists m :: m in s && forall p :: p in s ==> p <= m
  {
    assert (forall y :: y !in s) ==> s == {};
    var x :| x in s;
    var rest := s - {x};
    if rest == {} {
      forall p | p in s ensures p <= x { assert p !in rest; }
    } else {
      MaxExists(rest);
      var m :| m in rest && forall p :: p in rest ==> p <= m;
      var best := if x > m then x else m;
      forall p | p in s
        ensures p <= best
      {
        if p != x { assert p in rest; }
      }
      assert best in s;
    }
  }

  /** A finite non-empty set of prices has a least element. */
  lemma {:induction false} MinExists(s: set<Price>)
    requires s != {}
    ensures exists m :: m in s && forall p :: p in s ==> m <= p
  {
    assert (forall y :: y !in s) ==> s == {};
    var x :| x in s;
    var rest := s - {x};
    if rest == {} {
      forall p | p in s ensures x <= p { assert p !in rest; }
    } else {
      MinExists(rest);
      var m :| m in rest && forall p :: p in rest ==> m <= p;
      var best := if x < m then x else m;
      forall p | p in s
        ensures best <= p
      {
        if p != x { assert p in rest; }
      }
      assert best in s;
    }
  }

  /** The first key of a map ordered by `std::greater`. */
  function MaxKey(s: set<Price>): (m: Price)
    requires s != {}
    ensures m in s && forall p :: p in s ==> p <= m
  {
    MaxExists(s);
    var m :| m in s && forall p :: p in s ==> p <= m; m
  }

  /** The first key of a map ordered by `std::less`. */
  function MinKey(s: set<Price>): (m: Price)
    requires s != {}
    ensures m in s && forall p :: p in s ==> m <= p
  {
    MinExists(s);
    var m :| m in s && forall p :: p in s ==> m <= p; m
  }

  /** The matching loop's guard: both sides hold a level and the best bid reaches the best ask. */
  predicate Crossed(b: Book) {
    b.bids.Keys != {} && b.asks.Keys != {} && MaxKey(b.bids.Keys) >= MinKey(b.asks.Keys)
  }

  /** Dropping levels cannot cross an uncrossed book. */
  lemma FewerLevelsUncrossed(b: Book, r: Book)
    requires !Crossed(b) && r.bids.Keys <= b.bids.Keys && r.asks.Keys <= b.asks.Keys
    ensures !Crossed(r)
  {
    if r.bids.Keys != {} && r.asks.Keys != {} {
      var hb, la := MaxKey(r.bids.Keys), MinKey(r.asks.Keys);
      assert hb <= MaxKey(b.bids.Keys) && MinKey(b.asks.Keys) <= la;
    }
  }

  // ---------------------------------------------------------------------------
  // The invariant

  /** Every indexed order sits under its own id and keeps 0 <= remaining <= initial. */
  ghost predicate OrdersKeyed(b: Book) {
    forall id :: id in b.orders ==> b.orders[id].orderId == id && b.orders[id].WellFormed()
  }

  /** Every indexed order is listed in the level of its side at its price. */
  ghost predicate Listed(b: Book) {
    forall id :: id in b.orders ==> id in At(b.SideLevels(b.orders[id].side), b.orders[id].price)
  }

  /** Every listed id is indexed, on side `s`, at the level's price. */
  ghost predicate SideSound(m: Levels, orders: map<OrderId, Order>, s: Side) {
    forall p, i :: p in m && 0 <= i < |m[p]| ==>
      m[p][i] in orders && orders[m[p][i]].side == s && orders[m[p][i]].price == p
  }

  /** No id occurs twice in one level. */
  ghost predicate Distinct(m: Levels) {
    forall p :: p in m ==> Unique(m[p])
  }

  /** How many orders rest at `p`, both sides together. */
  function Count(b: Book, p: Price): nat {
    |At(b.bids, p)| + |At(b.asks, p)|
  }

  /** The exact sum of what rests at `p`, both sides together. */
  function Avail(b: Book, p: Price): nat {
    Remaining(b.orders, At(b.bids, p)) + Remaining(b.orders, At(b.asks, p))
  }

  /** The shared aggregate map is exact: count and (uint32) quantity of every price, and no level for a price with no order. */
  ghost predicate AggregatesExact(b: Book) {
    forall p :: ExactAt(b, p)
  }

  /** The aggregate at `p` is present exactly when some order rests there, and then holds the count and the wrapped sum. */
  ghost predicate ExactAt(b: Book, p: Price) {
    && (p in b.priceLevel <==> Count(b, p) > 0)
    && (p in b.priceLevel ==> b.priceLevel[p] == PriceLevelData(Count(b, p), Wrap32(Avail(b, p))))
  }

  ghost predicate Inv(b: Book) {
    && OrdersKeyed(b)
    && Listed(b)
    && SideSound(b.bids, b.orders, Buy)
    && SideSound(b.asks, b.orders, Sell)
    && Distinct(b.bids)
    && Distinct(b.asks)
    && AggregatesExact(b)
  }

  /** Between operations no level is kept with an empty sequence. */
  ghost predicate NoEmptyLevels(b: Book) {
    (forall p :: p in b.bids ==> b.bids[p] != []) &&
    (forall p :: p in b.asks ==> b.asks[p] != [])
  }

  /** The aggregate read at any price, present or not, is the exact one. */
  lemma AggregateAt(b: Book, p: Price)
    requires ExactAt(b, p)
    ensures LevelAt(b.priceLevel, p) == PriceLevelData(Count(b, p), Wrap32(Avail(b, p)))
  {
    if p !in b.priceLevel {
      assert At(b.bids, p) == [] && At(b.asks, p) == [];
    }
  }

  lemma SideFacts(b: Book, s: Side)
    requires Inv(b)
    ensures SideSound(b.SideLevels(s), b.orders, s) && Distinct(b.SideLevels(s))
  {
  }

  /** An indexed order occurs in no level other than its own. */
  lemma NotElsewhere(b: Book, id: OrderId, s: Side, p: Price)
    requires Inv(b) && id in b.orders
    requires s != b.orders[id].side || p != b.orders[id].price
    ensures id !in At(b.SideLevels(s), p)
  {
    SideFacts(b, s);
    var m := b.SideLevels(s);
    assert forall i :: 0 <= i < |At(m, p)| ==> At(m, p)[i] != id;
  }

  /** An id that is not indexed occurs in no level. */
  lemma NotListed(b: Book, id: OrderId, s: Side, p: Price)
    requires Inv(b) && id !in b.orders
    ensures id !in At(b.SideLevels(s), p)
  {
    SideFacts(b, s);
    var m := b.SideLevels(s);
    assert forall i :: 0 <= i < |At(m, p)| ==> At(m, p)[i] != id;
  }

  /**
   * The id index entry of an order: the order itself and the position of
   * its id in the level at its side and price, the only position it holds.
   */
  function EntryOf(b: Book, id: OrderId): (e: OrderEntry)
    requires Inv(b) && id in b.orders
    ensures e.order == b.orders[id]
    ensures var L := At(b.SideLevels(e.order.side), e.order.price);
      && e.location < |L| && L[e.location] == id
      && forall i :: 0 <= i < |L| && L[i] == id ==> i == e.location
  {
    var o := b.orders[id];
    var L := At(b.SideLevels(o.side), o.price);
    SideFacts(b, o.side);
    assert o.price in b.SideLevels(o.side);
    assert Unique(L);
    OrderEntry(o, IndexOf(L, id))
  }

  /** `Size`: the book holds no order exactly when neither side holds a level. */
  lemma SizeZero(b: Book)
    requires Inv(b) && NoEmptyLevels(b)
    ensures |b.orders| == 0 <==> b.bids.Keys == {} && b.asks.Keys == {}
  {
    if |b.orders| != 0 {
      assert (forall y :: y !in b.orders) ==> b.orders.Keys == {};
      var id :| id in b.orders;
      var o := b.orders[id];
      assert o.price in b.SideLevels(o.side);
    }
    if b.bids.Keys != {} {
      assert (forall y :: y !in b.bids.Keys) ==> b.bids.Keys == {};
      var p :| p in b.bids;
      assert b.bids[p][0] in b.orders;
    }
    if b.asks.Keys != {} {
      assert (forall y :: y !in b.asks.Keys) ==> b.asks.Keys == {};
      var p :| p in b.asks;
      assert b.asks[p][0] in b.orders;
    }
  }
}
