/**
 * Three places where src/orderBook.cpp does not do what its authors evidently
 * meant, modelled as written next to the corrected definitions the rest of
 * the model uses, each with a concrete book that exhibits the difference.
 */
module Findings {
  import opened Common
  import opened Orders
  import opened BookState
  import opened BookOps
  import opened Matching
  import opened Admission
  import opened FillOrKill

  /** A book with no orders. */
  function EmptyBook(): (b: Book)
    ensures Inv(b) && NoEmptyLevels(b) && !Crossed(b)
    ensures b.orders == map[] && b.bids == map[] && b.asks == map[]
  {
    var b := Book(map[], map[], map[], map[]);
    assert forall p :: ExactAt(b, p) by {
      forall p ensures ExactAt(b, p) {
        assert At(b.bids, p) == [] && At(b.asks, p) == [];
      }
    }
    b
  }

  // ---------------------------------------------------------------------------
  // src/orderBook.cpp:212 erases `asks_` at the bid price

  /** The erase after the inner loop as written: an emptied ask level is erased at the bid price. */
  function EraseEmptyAsWritten(b: Book, bp: Price, ap: Price): (r: Book)
    ensures r.orders == b.orders && r.priceLevel == b.priceLevel
    ensures r.bids.Keys == b.bids.Keys - (if At(b.bids, bp) == [] then {bp} else {})
    ensures r.asks.Keys == b.asks.Keys - (if At(b.asks, ap) == [] then {bp} else {})
  {
    b.(bids := if At(b.bids, bp) == [] then b.bids - {bp} else b.bids,
       asks := if At(b.asks, ap) == [] then b.asks - {bp} else b.asks)
  }

  /** One iteration of MatchOrder's outer loop as written, on a crossed book. */
  function PassAsWritten(b: Book): (r: Book)
    requires Inv(b) && Crossed(b)
    ensures r.orders.Keys <= b.orders.Keys
  {
    var bp, ap := MaxKey(b.bids.Keys), MinKey(b.asks.Keys);
    DrainLevelsFacts(b, bp, ap);
    EraseEmptyAsWritten(DrainLevels(b, bp, ap).0, bp, ap)
  }

  /** A sell of 5 at 50 in an empty book. */
  function HangAsk(): Book {
    Insert(EmptyBook(), NewPricedOrder(2, LimitOrder, Sell, 5, 50))
  }

  /** A buy of 10 at 60 added after a sell of 5 at 50, before matching. */
  function HangExample(): Book {
    Insert(HangAsk(), NewPricedOrder(1, LimitOrder, Buy, 10, 60))
  }

  lemma HangAskMaps()
    ensures HangAsk().asks == map[50 := [2]] && HangAsk().bids == map[]
    ensures HangAsk().orders == map[2 := NewPricedOrder(2, LimitOrder, Sell, 5, 50)]
  {
    assert At(EmptyBook().asks, 50) + [2] == [2];
  }

  /** The example's bid and ask levels and the quantities resting in them. */
  lemma HangExampleMaps()
    ensures HangExample().bids == map[60 := [1]] && HangExample().asks == map[50 := [2]]
    ensures HangExample().orders[1].remainingQuantity == 10 && HangExample().orders[2].remainingQuantity == 5
  {
    HangAskMaps();
    assert At(HangAsk().bids, 60) + [1] == [1];
  }

  /** The example is a valid book that is crossed: 60 against 50. */
  lemma HangExampleShape()
    ensures Inv(HangExample()) && NoEmptyLevels(HangExample()) && Crossed(HangExample())
    ensures HangExample().bids == map[60 := [1]] && HangExample().asks == map[50 := [2]]
    ensures HangExample().orders[1].remainingQuantity == 10 && HangExample().orders[2].remainingQuantity == 5
    ensures HangExample().bids.Keys == {60} && HangExample().asks.Keys == {50}
  {
    InsertPreservesInv(EmptyBook(), NewPricedOrder(2, LimitOrder, Sell, 5, 50));
    HangAskMaps();
    InsertPreservesInv(HangAsk(), NewPricedOrder(1, LimitOrder, Buy, 10, 60));
    HangExampleMaps();
    var e := HangExample();
    assert e.bids.Keys == {60} && e.asks.Keys == {50};
  }

  /** Filling the two fronts of the example leaves the bid, 5 short of its 10, at the front of its level. */
  lemma HangFillBid()
    ensures CanPass(HangExample(), 60, 50)
    ensures FillFronts(HangExample(), 60, 50).0.bids == map[60 := [1]]
  {
    HangExampleShape();
    var e := HangExample();
    FillFrontsShrinks(e, 60, 50);
    FillFrontsBidLeg(e, 60, 50);
    FillFrontsQuantity(e, 60, 50);
  }

  /** Filling the two fronts of the example fills the ask and empties its level. */
  lemma HangFillAsk()
    ensures CanPass(HangExample(), 60, 50)
    ensures FillFronts(HangExample(), 60, 50).0.asks.Keys == {50} && FillFronts(HangExample(), 60, 50).0.asks[50] == []
  {
    HangExampleShape();
    var e := HangExample();
    FillFrontsShrinks(e, 60, 50);
    FillFrontsAskLeg(e, 60, 50);
    FillFrontsQuantity(e, 60, 50);
    assert FillFronts(e, 60, 50).1.askTrade.quantity == 5;
  }

  lemma HangFill()
    ensures CanPass(HangExample(), 60, 50)
    ensures var b1 := FillFronts(HangExample(), 60, 50).0;
      && Inv(b1) && b1.bids == map[60 := [1]] && b1.asks.Keys == {50} && b1.asks[50] == []
  {
    HangExampleShape();
    FillFrontsPreservesInv(HangExample(), 60, 50);
    HangFillBid();
    HangFillAsk();
  }

  /** The inner loop stops after one fill when that fill empties the ask level. */
  lemma DrainStopsAfterOneFill(b: Book, bp: Price, ap: Price)
    requires Inv(b) && CanPass(b, bp, ap) && At(FillFronts(b, bp, ap).0.asks, ap) == []
    ensures DrainLevels(b, bp, ap).0 == FillFronts(b, bp, ap).0
  {
    FillFrontsPreservesInv(b, bp, ap);
    FillFrontsShrinks(b, bp, ap);
  }

  /** The erase as written leaves the book alone when the bid level is not empty and no ask level sits at the bid price. */
  lemma EraseAsWrittenMisses(b: Book, bp: Price, ap: Price)
    requires At(b.bids, bp) != [] && bp !in b.asks
    ensures EraseEmptyAsWritten(b, bp, ap) == b
  {
    assert b.asks - {bp} == b.asks;
  }

  /** The first pass as written is that one fill: the level at 50 empties and the erase at 60 removes nothing. */
  lemma HangFirstPass()
    ensures Inv(HangExample()) && Crossed(HangExample())
    ensures PassAsWritten(HangExample()) == FillFronts(HangExample(), 60, 50).0
  {
    HangExampleShape();
    HangFill();
    var e := HangExample();
    assert MaxKey(e.bids.Keys) == 60 && MinKey(e.asks.Keys) == 50;
    DrainStopsAfterOneFill(e, 60, 50);
    EraseAsWrittenMisses(FillFronts(e, 60, 50).0, 60, 50);
  }

  /**
   * A crossed book whose best ask level is empty, with no ask level at the
   * best bid price, is left unchanged by the outer loop as written.
   */
  lemma StuckOnEmptyAskLevel(b: Book)
    requires Inv(b) && Crossed(b)
    requires b.asks[MinKey(b.asks.Keys)] == [] && b.bids[MaxKey(b.bids.Keys)] != []
    requires MaxKey(b.bids.Keys) !in b.asks
    ensures PassAsWritten(b) == b
  {
    var bp, ap := MaxKey(b.bids.Keys), MinKey(b.asks.Keys);
    assert DrainLevels(b, bp, ap) == (b, []);
    EraseAsWrittenMisses(b, bp, ap);
  }

  /** The book the example is left in: a bid at 60 against an empty ask level at 50. */
  lemma StuckShape(r: Book)
    requires Inv(r) && r.bids == map[60 := [1]] && r.asks.Keys == {50} && r.asks[50] == []
    ensures Crossed(r) && PassAsWritten(r) == r
  {
    assert r.bids.Keys == {60};
    StuckOnEmptyAskLevel(r);
  }

  /**
   * On the example the first pass fills the ask and empties the level at
   * 50, which is then erased at 60 instead; the book stays crossed on an
   * empty ask level and every later pass leaves it as it is, so the outer
   * `while (true)` never exits.
   */
  lemma EraseAtBidPriceHangs()
    ensures Inv(HangExample()) && NoEmptyLevels(HangExample()) && Crossed(HangExample())
    ensures var r := PassAsWritten(HangExample());
      Inv(r) && Crossed(r) && r.asks.Keys == {50} && r.asks[50] == [] && PassAsWritten(r) == r
  {
    HangExampleShape();
    HangFirstPass();
    HangFill();
    StuckShape(FillFronts(HangExample(), 60, 50).0);
  }

  /** A sell of 5 at 50 in an empty book. */
  function OrphanFirst(): Book {
    Insert(EmptyBook(), NewPricedOrder(2, LimitOrder, Sell, 5, 50))
  }

  /** Sells of 5 at 50 and of 5 at 60 in an empty book. */
  function OrphanAsks(): Book {
    Insert(OrphanFirst(), NewPricedOrder(3, LimitOrder, Sell, 5, 60))
  }

  /** A buy of 5 at 60 added after the two sells, before matching. */
  function OrphanExample(): Book {
    Insert(OrphanAsks(), NewPricedOrder(1, LimitOrder, Buy, 5, 60))
  }

  lemma OrphanFirstValid()
    ensures Inv(OrphanFirst()) && NoEmptyLevels(OrphanFirst())
    ensures OrphanFirst().orders.Keys == {2} && OrphanFirst().bids == map[]
    ensures OrphanFirst().asks.Keys == {50} && OrphanFirst().asks[50] == [2]
  {
    InsertPreservesInv(EmptyBook(), NewPricedOrder(2, LimitOrder, Sell, 5, 50));
    assert At(EmptyBook().asks, 50) + [2] == [2];
  }

  lemma OrphanAsksValid()
    ensures Inv(OrphanAsks()) && NoEmptyLevels(OrphanAsks())
    ensures OrphanAsks().orders.Keys == {2, 3} && OrphanAsks().bids == map[]
    ensures OrphanAsks().asks.Keys == {50, 60} && OrphanAsks().asks[50] == [2] && OrphanAsks().asks[60] == [3]
  {
    OrphanFirstValid();
    InsertPreservesInv(OrphanFirst(), NewPricedOrder(3, LimitOrder, Sell, 5, 60));
    assert At(OrphanFirst().asks, 60) + [3] == [3];
  }

  /** The example is a valid book. */
  lemma OrphanExampleValid()
    ensures Inv(OrphanExample()) && NoEmptyLevels(OrphanExample())
  {
    OrphanAsksValid();
    InsertPreservesInv(OrphanAsks(), NewPricedOrder(1, LimitOrder, Buy, 5, 60));
  }

  /** The example's levels and orders as built; it is crossed, 60 against 50. */
  lemma OrphanExampleMaps()
    ensures OrphanShape(OrphanExample()) && Crossed(OrphanExample())
    ensures MaxKey(OrphanExample().bids.Keys) == 60 && MinKey(OrphanExample().asks.Keys) == 50
    ensures OrphanExample().orders[3].side == Sell && OrphanExample().orders[3].price == 60
  {
    OrphanAsksValid();
    var e := OrphanExample();
    assert At(OrphanAsks().bids, 60) + [1] == [1];
    assert e.bids.Keys == {60};
    assert MinKey(e.asks.Keys) == 50;
  }

  /** The example's levels and the orders resting in them. */
  ghost predicate OrphanShape(e: Book) {
    && e.bids.Keys == {60} && e.bids[60] == [1]
    && e.asks.Keys == {50, 60} && e.asks[50] == [2] && e.asks[60] == [3]
    && 1 in e.orders && 2 in e.orders && 3 in e.orders
    && e.orders[1].remainingQuantity == 5 && e.orders[2].remainingQuantity == 5
  }

  /** Such a book can fill its two fronts, and the pass keeps every level key. */
  lemma OrphanCanPass(e: Book)
    requires Inv(e) && OrphanShape(e)
    ensures CanPass(e, 60, 50)
    ensures FillFronts(e, 60, 50).0.bids.Keys == {60} && FillFronts(e, 60, 50).0.asks.Keys == {50, 60}
  {
    FillFrontsShrinks(e, 60, 50);
  }

  /** Filling the two fronts of such a book fills both and empties the bid level at 60 and the ask level at 50. */
  lemma OrphanFillLevels(e: Book)
    requires CanPass(e, 60, 50) && OrphanShape(e)
    ensures var r := FillFronts(e, 60, 50).0;
      r.bids[60] == [] && r.asks[50] == [] && At(r.asks, 60) == [3]
  {
    FillFrontsQuantity(e, 60, 50);
    FillFrontsBidLeg(e, 60, 50);
    FillFrontsAskLeg(e, 60, 50);
    FillFrontsFrame(e, 60, 50);
    assert At(e.asks, 60) == [3];
  }

  /** Filling the two fronts of such a book leaves the sell at 60 as it was. */
  lemma OrphanFillKeeps(e: Book)
    requires CanPass(e, 60, 50) && OrphanShape(e)
    ensures 3 in FillFronts(e, 60, 50).0.orders && FillFronts(e, 60, 50).0.orders[3] == e.orders[3]
  {
    FillFrontsOthers(e, 60, 50);
  }

  /** The erase as written after emptying the bid level at 60 and the ask level at 50: the asks lose 60, not 50. */
  lemma OrphanErase(b: Book)
    requires b.bids.Keys == {60} && b.bids[60] == [] && b.asks.Keys == {50, 60} && b.asks[50] == []
    requires 3 in b.orders && b.orders[3].side == Sell && b.orders[3].price == 60
    ensures var r := EraseEmptyAsWritten(b, 60, 50);
      && 3 in r.orders && r.asks.Keys == {50} && r.asks[50] == [] && !Listed(r)
  {
    var r := EraseEmptyAsWritten(b, 60, 50);
    assert r.orders[3] == b.orders[3];
    assert At(r.SideLevels(Sell), 60) == [];
  }

  /** The pass as written on such a book: the level at 60 is erased from the asks, so an indexed sell at 60 is listed nowhere. */
  lemma OrphanPass(e: Book)
    requires Inv(e) && Crossed(e) && OrphanShape(e) && MaxKey(e.bids.Keys) == 60 && MinKey(e.asks.Keys) == 50
    requires e.orders[3].side == Sell && e.orders[3].price == 60
    ensures var r := PassAsWritten(e);
      && 3 in r.orders && r.asks.Keys == {50} && r.asks[50] == [] && !Listed(r)
  {
    OrphanCanPass(e);
    OrphanFillLevels(e);
    OrphanFillKeeps(e);
    DrainStopsAfterOneFill(e, 60, 50);
    OrphanErase(FillFronts(e, 60, 50).0);
  }

  /**
   * On the example the first pass as written fills the buy against the sell
   * at 50 and empties both best levels; the erase meant for the ask level at
   * 50 removes the live level at 60 instead, so the sell of 5 at 60 stays
   * indexed but is listed in no level, and the empty level at 50 is left.
   */
  lemma EraseAtBidPriceOrphans()
    ensures Inv(OrphanExample()) && NoEmptyLevels(OrphanExample()) && Crossed(OrphanExample())
    ensures var r := PassAsWritten(OrphanExample());
      && 3 in r.orders && r.asks.Keys == {50} && r.asks[50] == [] && !Listed(r)
  {
    OrphanExampleValid();
    OrphanExampleMaps();
    OrphanPass(OrphanExample());
  }

  // ---------------------------------------------------------------------------
  // src/orderBook.cpp:156-159 counts a cancelled order out with its initial quantity

  /** CancelOrder as written: the aggregate loses the order's initial quantity rather than what remained of it. */
  function CancelAsWritten(b: Book, id: OrderId): (r: Book)
    ensures id !in b.orders ==> r == b
    ensures id in b.orders ==>
      r == Cancel(b, id).(priceLevel := ApplyLevelAction(b.priceLevel, b.orders[id].price, b.orders[id].initialQuantity, Remove))
  {
    if id !in b.orders then b
    else
      var o := b.orders[id];
      Cancel(b, id).(priceLevel := ApplyLevelAction(b.priceLevel, o.price, o.initialQuantity, Remove))
  }

  /** Two bids at 100: order 1 of 10 with 1 left after a partial fill, then order 2 of 1. */
  function DriftExample(): Book {
    Book(map[1 := Order(1, GoodTillCancelOrder, Buy, 10, 1, 100), 2 := Order(2, GoodTillCancelOrder, Buy, 1, 1, 100)],
         map[100 := [1, 2]], map[], map[100 := PriceLevelData(2, 2)])
  }

  /** The example is a valid book: its aggregate (2, 2) is exact, since 1 + 1 remain. */
  lemma DriftExampleValid()
    ensures Inv(DriftExample()) && NoEmptyLevels(DriftExample())
  {
    var e := DriftExample();
    assert Unique(e.bids[100]);
    assert Remaining(e.orders, [1, 2]) == 2 by {
      assert [1, 2][1..] == [2];
    }
    forall p ensures ExactAt(e, p) {
      if p == 100 {
        assert At(e.bids, p) == [1, 2] && At(e.asks, p) == [];
      } else {
        assert At(e.bids, p) == [] && At(e.asks, p) == [];
      }
    }
  }

  /**
   * On the example, cancelling the partially filled order as written takes 10
   * off an aggregate of 2: the uint32 wraps to 4294967288 while one order of
   * 1 is left; the corrected cancellation leaves the exact aggregate 1.
   */
  lemma CancelAsWrittenDrifts()
    ensures Inv(DriftExample()) && NoEmptyLevels(DriftExample())
    ensures CancelAsWritten(DriftExample(), 1).priceLevel[100] == PriceLevelData(1, 4294967288)
    ensures !AggregatesExact(CancelAsWritten(DriftExample(), 1))
    ensures Cancel(DriftExample(), 1).priceLevel[100] == PriceLevelData(1, 1)
  {
    DriftExampleValid();
    var e := DriftExample();
    CancelShape(e, 1);
    var r := CancelAsWritten(e, 1);
    assert IndexOf([1, 2], 1) == 0;
    assert LevelWithout([1, 2], 1) == [2];
    assert At(r.bids, 100) == [2] && At(r.asks, 100) == [];
    assert Remaining(r.orders, [2]) == 1;
    assert !ExactAt(r, 100);
  }

  // ---------------------------------------------------------------------------
  // src/orderBook.cpp:106-110 and 119-123 scan the aggregate map of both sides

  /** As written: the aggregate prices the scan visits, the order's own side's levels among them. */
  function EligibleAsWritten(b: Book, s: Side, limit: Price): (e: set<Price>)
    ensures forall p :: p in e <==> p in b.priceLevel && EligiblePrice(s, limit, p)
  {
    set p | p in b.priceLevel && EligiblePrice(s, limit, p)
  }

  /**
   * As written, CanFullyFillOrder's answer: the opposite side holds a level,
   * and the eligible aggregates of both sides exist and together reach `qty`.
   */
  predicate CanFillAsWritten(b: Book, s: Side, limit: Price, qty: Quantity) {
    && b.SideLevels(Opposite(s)).Keys != {}
    && EligibleAsWritten(b, s, limit) != {}
    && SumAvailable(b.priceLevel, EligibleAsWritten(b, s, limit)) >= qty
  }

  /** As written: the admission of a fresh FillOrKill order rests on the as-written scan; every other case is as corrected. */
  function AdmitAsWritten(b: Book, o: Order): (r: Option<Order>)
    ensures o.orderId in b.orders ==> r == None
    ensures r.Some? ==> r.value.SameIdentity(o) && r.value.remainingQuantity == o.remainingQuantity
    ensures o.orderId !in b.orders && o.orderType == FillOrKillOrder ==>
      (r.Some? <==> CanFillAsWritten(b, o.side, o.price, o.initialQuantity)) && (r.Some? ==> r.value == o)
    ensures o.orderType != FillOrKillOrder ==> r == Admit(b, o)
  {
    if o.orderId !in b.orders && o.orderType == FillOrKillOrder then
      if CanFillAsWritten(b, o.side, o.price, o.initialQuantity) then Some(o) else None
    else Admit(b, o)
  }

  /** As written: AddOrder with the as-written admission, then insertion and matching as corrected. */
  function AddAsWritten(b: Book, o: Order): (r: (Book, seq<Trade>))
    requires Inv(b) && NoEmptyLevels(b) && !Crossed(b) && o.Unfilled()
    ensures AdmitAsWritten(b, o) == None ==> r == (b, [])
    ensures o.orderType != FillOrKillOrder ==> r == AddSpec(b, o)
  {
    match AdmitAsWritten(b, o)
    case None => (b, [])
    case Some(a) =>
      InsertPreservesInv(b, a);
      MatchOrderSpec(Insert(b, a))
  }

  /** A bid of 10 at 90 in an empty book. */
  function OwnSideBid(): Book {
    Insert(EmptyBook(), NewPricedOrder(1, GoodTillCancelOrder, Buy, 10, 90))
  }

  /** A bid of 10 at 90 and an ask of 5 at 100. */
  function OwnSideExample(): Book {
    Insert(OwnSideBid(), NewPricedOrder(2, GoodTillCancelOrder, Sell, 5, 100))
  }

  /** The example's levels, its ask order and its aggregates 10 at 90 and 5 at 100. */
  lemma OwnSideMaps()
    ensures OwnSideExample().bids == map[90 := [1]] && OwnSideExample().asks == map[100 := [2]]
    ensures OwnSideExample().orders[2] == NewPricedOrder(2, GoodTillCancelOrder, Sell, 5, 100)
    ensures OwnSideExample().priceLevel == map[90 := PriceLevelData(1, 10), 100 := PriceLevelData(1, 5)]
    ensures OwnSideExample().orders.Keys == {1, 2}
  {
    assert At(EmptyBook().bids, 90) + [1] == [1];
    assert OwnSideBid().asks == map[] && OwnSideBid().priceLevel == map[90 := PriceLevelData(1, 10)];
    assert At(OwnSideBid().asks, 100) + [2] == [2];
  }

  /** The example is a valid book that is not crossed, with aggregates 10 at 90 and 5 at 100. */
  lemma OwnSideShape()
    ensures Inv(OwnSideExample()) && NoEmptyLevels(OwnSideExample()) && !Crossed(OwnSideExample())
    ensures OwnSideExample().bids == map[90 := [1]] && OwnSideExample().asks == map[100 := [2]]
    ensures OwnSideExample().orders[2] == NewPricedOrder(2, GoodTillCancelOrder, Sell, 5, 100)
    ensures OwnSideExample().priceLevel == map[90 := PriceLevelData(1, 10), 100 := PriceLevelData(1, 5)]
    ensures OwnSideExample().bids.Keys == {90} && OwnSideExample().asks.Keys == {100}
  {
    InsertPreservesInv(EmptyBook(), NewPricedOrder(1, GoodTillCancelOrder, Buy, 10, 90));
    InsertPreservesInv(OwnSideBid(), NewPricedOrder(2, GoodTillCancelOrder, Sell, 5, 100));
    OwnSideMaps();
    var e := OwnSideExample();
    assert e.bids.Keys == {90} && e.asks.Keys == {100};
  }

  /** Two distinct aggregates sum to their two available quantities. */
  lemma SumOfTwo(pl: map<Price, PriceLevelData>, p: Price, q: Price)
    requires p in pl && q in pl && p != q
    ensures SumAvailable(pl, {p, q}) == pl[p].availableQuantity + pl[q].availableQuantity
  {
    SumAvailableRemove(pl, {p, q}, p);
    assert {p, q} - {p} == {q};
    SumAvailableRemove(pl, {q}, q);
    assert {q} - {q} == {};
  }

  /** The scan of the example for a buy limited at 100 visits both aggregates and sums 15. */
  lemma OwnSideScan()
    ensures OwnSideExample().asks.Keys != {}
    ensures EligibleAsWritten(OwnSideExample(), Buy, 100) == {90, 100}
    ensures SumAvailable(OwnSideExample().priceLevel, {90, 100}) == 15
  {
    OwnSideMaps();
    var pl := OwnSideExample().priceLevel;
    assert pl.Keys == {90, 100};
    SumOfTwo(pl, 90, 100);
  }

  /**
   * As written, a FillOrKill buy of 10 limited at 100 passes the check on the
   * example, because the bid level at 90 is counted with the ask level at
   * 100, though only 5 is offered on the ask side.
   */
  lemma FillOrKillCountsOwnSide()
    ensures Inv(OwnSideExample()) && !Crossed(OwnSideExample())
    ensures CanFillAsWritten(OwnSideExample(), Buy, 100, 10)
    ensures OwnSideExample().asks == map[100 := [2]] && Remaining(OwnSideExample().orders, [2]) == 5
  {
    OwnSideShape();
    OwnSideScan();
  }

  /** The FillOrKill buy of 10 limited at 100 offered to the example. */
  function OwnSideBuy(): Order {
    NewPricedOrder(3, FillOrKillOrder, Buy, 10, 100)
  }

  /** A book whose only ask level is 100, holding order 2 with 5 remaining, offers a buy limited at 100 just that level. */
  lemma OfferAtHundred(e: Book)
    requires e.asks == map[100 := [2]] && Remaining(e.orders, [2]) == 5 && LevelAt(e.priceLevel, 100).availableQuantity == 5
    ensures OppositeEligible(e, Buy, 100) == {100}
    ensures SumAvailable(e.priceLevel, {100}) == 5
    ensures Supply(e, Buy, 100) == 5
  {
    assert OppositeEligible(e, Buy, 100) == {100};
    SumAvailableRemove(e.priceLevel, {100}, 100);
    SumLevelsRemove(e.orders, e.asks, {100}, 100);
    assert {100} - {100} == {};
  }

  /** What the example offers a buy limited at 100: the ask level at 100, with 5 in its aggregate and 5 in its order. */
  lemma OwnSideOffer()
    ensures OppositeEligible(OwnSideExample(), Buy, 100) == {100}
    ensures SumAvailable(OwnSideExample().priceLevel, {100}) == 5
    ensures Supply(OwnSideExample(), Buy, 100) == 5
  {
    FillOrKillCountsOwnSide();
    OwnSideMaps();
    OfferAtHundred(OwnSideExample());
  }

  /**
   * The corrected check refuses that buy: the only ask level within its
   * limit offers 5, so AddOrder leaves the example as it was.
   */
  lemma OwnSideRefused()
    ensures Inv(OwnSideExample()) && NoEmptyLevels(OwnSideExample()) && !Crossed(OwnSideExample())
    ensures Admit(OwnSideExample(), OwnSideBuy()) == None
    ensures AddSpec(OwnSideExample(), OwnSideBuy()) == (OwnSideExample(), [])
  {
    OwnSideShape();
    OwnSideOffer();
    assert !CanFill(OwnSideExample(), Buy, 100, 10);
  }

  /**
   * The buy inserted into a valid, uncrossed book whose only bid level is 90
   * and which offers 5 within the buy's limit: alone at 100 on the bid side,
   * above the bid at 90, with 5 offered against its 10.
   */
  lemma InsertedAtHundred(e: Book)
    requires Inv(e) && NoEmptyLevels(e) && !Crossed(e) && e.bids.Keys == {90} && 3 !in e.orders
    requires Supply(e, Buy, 100) == 5
    ensures var b1 := Insert(e, OwnSideBuy());
      && Inv(b1) && NoEmptyLevels(b1) && Lone(b1, 3, Buy, 100) && Apart(b1, Buy, 100)
      && Supply(b1, Buy, 100) == 5 && RemainingOf(b1.orders, 3) == 10
      && b1.bids.Keys == {90, 100} && b1.orders[3] == OwnSideBuy()
  {
    InsertPreservesInv(e, OwnSideBuy());
    InsertLone(e, OwnSideBuy());
  }

  /** The buy inserted into the example. */
  lemma OwnSideInserted()
    ensures Inv(OwnSideExample()) && NoEmptyLevels(OwnSideExample()) && !Crossed(OwnSideExample())
    ensures 3 !in OwnSideExample().orders
    ensures var b1 := Insert(OwnSideExample(), OwnSideBuy());
      && Inv(b1) && NoEmptyLevels(b1) && Lone(b1, 3, Buy, 100) && Apart(b1, Buy, 100)
      && Supply(b1, Buy, 100) == 5 && RemainingOf(b1.orders, 3) == 10
      && b1.bids.Keys == {90, 100} && b1.orders[3] == OwnSideBuy()
  {
    OwnSideShape();
    OwnSideMaps();
    OwnSideOffer();
    InsertedAtHundred(OwnSideExample());
  }

  /**
   * Matching the inserted buy: it trades the 5 offered and is left resting at
   * the best bid, alone at 100, still a FillOrKill order.
   */
  lemma OwnSideMatched()
    ensures Inv(OwnSideExample()) && NoEmptyLevels(OwnSideExample()) && !Crossed(OwnSideExample())
    ensures 3 !in OwnSideExample().orders
    ensures var b1 := Insert(OwnSideExample(), OwnSideBuy());
      Inv(b1) && NoEmptyLevels(b1)
    ensures var (r, ts) := MatchingLoop(Insert(OwnSideExample(), OwnSideBuy()));
      && 3 in r.orders && r.orders[3].orderType == FillOrKillOrder && TradedQuantity(ts, 3) == 5
      && r.bids.Keys != {} && BestPrice(r, Buy) == 100 && r.bids[100] == [3]
  {
    OwnSideInserted();
    var b1 := Insert(OwnSideExample(), OwnSideBuy());
    LoopLone(b1, 3, Buy, 100);
    MatchingLoopRetires(b1);
    var (r, ts) := MatchingLoop(b1);
    UncrossedNoSupply(r, 3, Buy, 100);
    assert 3 in r.orders;
    assert r.orders[3].SameIdentity(b1.orders[3]);
    assert 100 in r.bids && r.bids.Keys <= {90, 100};
  }

  /**
   * As written, the example admits the FillOrKill buy of 10 that the
   * corrected check refuses; AddOrder then trades 5 of it and the clean-up
   * cancels the rest. The order is neither filled whole nor killed whole.
   */
  lemma FillOrKillPartlyTradedThenKilled()
    ensures Inv(OwnSideExample()) && NoEmptyLevels(OwnSideExample()) && !Crossed(OwnSideExample())
    ensures AdmitAsWritten(OwnSideExample(), OwnSideBuy()) == Some(OwnSideBuy())
    ensures var (r, ts) := AddAsWritten(OwnSideExample(), OwnSideBuy());
      && ts != [] && TradedQuantity(ts, 3) == 5 && 3 !in r.orders
    ensures AddSpec(OwnSideExample(), OwnSideBuy()) == (OwnSideExample(), [])
  {
    FillOrKillCountsOwnSide();
    OwnSideRefused();
    OwnSideMatched();
    var e, x := OwnSideExample(), OwnSideBuy();
    InsertPreservesInv(e, x);
    var b1 := Insert(e, x);
    assert AddAsWritten(e, x) == MatchOrderSpec(b1);
    var (r, ts) := MatchingLoop(b1);
    var k := KillFillOrKillFront(r, Buy);
    assert 3 !in k.orders;
  }

}
