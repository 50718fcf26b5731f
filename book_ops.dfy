/**
 * Insertion and cancellation on the book value (AddOrder's insertion step
 * and CancelOrder in src/orderBook.cpp), with the proofs that both keep the
 * book's invariant.
 */
module BookOps {
  import opened Common
  import opened Orders
  import opened BookState

  // ---------------------------------------------------------------------------
  // Insertion

  /**
   * Appends the order's id to the tail of its side's level at its price
   * (creating the level), indexes the order under its id and counts it in
   * the aggregate with its initial quantity.
   */
  function Insert(b: Book, o: Order): (r: Book)
    requires o.orderId !in b.orders
    ensures r.orders == b.orders[o.orderId := o]
    ensures At(r.SideLevels(o.side), o.price) == At(b.SideLevels(o.side), o.price) + [o.orderId]
    ensures forall p :: p != o.price ==> At(r.SideLevels(o.side), p) == At(b.SideLevels(o.side), p)
    ensures r.SideLevels(o.side) == b.SideLevels(o.side)[o.price := At(b.SideLevels(o.side), o.price) + [o.orderId]]
    ensures r.SideLevels(Opposite(o.side)) == b.SideLevels(Opposite(o.side))
    ensures r.priceLevel == ApplyLevelAction(b.priceLevel, o.price, o.initialQuantity, Add)
  {
    var m := b.SideLevels(o.side);
    var m' := m[o.price := At(m, o.price) + [o.orderId]];
    b.WithSide(o.side, m').(orders := b.orders[o.orderId := o],
                            priceLevel := ApplyLevelAction(b.priceLevel, o.price, o.initialQuantity, Add))
  }

  /** Aggregates at a price whose levels and orders are unchanged stay exact. */
  lemma AvailFrame(b: Book, r: Book, p: Price, x: OrderId)
    requires At(r.bids, p) == At(b.bids, p) && At(r.asks, p) == At(b.asks, p)
    requires x !in At(b.bids, p) && x !in At(b.asks, p)
    requires forall id :: id != x ==> RemainingOf(r.orders, id) == RemainingOf(b.orders, id)
    ensures Avail(r, p) == Avail(b, p) && Count(r, p) == Count(b, p)
  {
    RemainingFrameOne(r.orders, b.orders, x, At(b.bids, p));
    RemainingFrameOne(r.orders, b.orders, x, At(b.asks, p));
  }

  /** The new order is indexed under its id and every indexed order stays listed. */
  lemma InsertListed(b: Book, o: Order)
    requires OrdersKeyed(b) && Listed(b) && o.orderId !in b.orders && o.WellFormed()
    requires o.orderId !in At(b.SideLevels(o.side), o.price)
    ensures OrdersKeyed(Insert(b, o)) && Listed(Insert(b, o))
  {
    var r := Insert(b, o);
    forall x | x in r.orders
      ensures x in At(r.SideLevels(r.orders[x].side), r.orders[x].price)
    {
      if x != o.orderId {
        var ox := b.orders[x];
        assert x in At(b.SideLevels(ox.side), ox.price);
        if ox.side == o.side && ox.price == o.price {
          assert At(r.SideLevels(ox.side), ox.price) == At(b.SideLevels(ox.side), ox.price) + [o.orderId];
        }
      }
    }
  }

  /** Every listed id on side `t` is still indexed there, at its level's price. */
  lemma InsertSideSound(b: Book, o: Order, t: Side)
    requires SideSound(b.SideLevels(t), b.orders, t) && o.orderId !in b.orders
    ensures SideSound(Insert(b, o).SideLevels(t), Insert(b, o).orders, t)
  {
    var r := Insert(b, o);
    var m, m' := b.SideLevels(t), r.SideLevels(t);
    forall q, i | q in m' && 0 <= i < |m'[q]|
      ensures m'[q][i] in r.orders && r.orders[m'[q][i]].side == t && r.orders[m'[q][i]].price == q
    {
      if t == o.side && q == o.price {
        assert m'[q] == At(m, q) + [o.orderId];
        if i < |At(m, q)| {
          assert m'[q][i] == m[q][i];
        }
      } else {
        assert m'[q] == m[q];
      }
    }
  }

  /** No level of side `t` holds an id twice. */
  lemma InsertDistinct(b: Book, o: Order, t: Side)
    requires Distinct(b.SideLevels(t)) && o.orderId !in At(b.SideLevels(t), o.price)
    requires o.orderId !in b.orders
    ensures Distinct(Insert(b, o).SideLevels(t))
  {
    var m, m' := b.SideLevels(t), Insert(b, o).SideLevels(t);
    forall q | q in m'
      ensures Unique(m'[q])
    {
      if t == o.side && q == o.price {
        UniqueAppend(At(m, q), o.orderId);
      }
    }
  }

  lemma InsertStructure(b: Book, o: Order)
    requires Inv(b) && o.orderId !in b.orders && o.WellFormed()
    ensures var r := Insert(b, o);
      OrdersKeyed(r) && Listed(r) && SideSound(r.bids, r.orders, Buy) && SideSound(r.asks, r.orders, Sell)
      && Distinct(r.bids) && Distinct(r.asks)
  {
    NotListed(b, o.orderId, Buy, o.price);
    NotListed(b, o.orderId, Sell, o.price);
    InsertListed(b, o);
    InsertSideSound(b, o, Buy);
    InsertSideSound(b, o, Sell);
    InsertDistinct(b, o, Buy);
    InsertDistinct(b, o, Sell);
  }

  /** At the order's own price: one more order and its initial quantity more. */
  lemma InsertAggregateAtPrice(b: Book, o: Order)
    requires Inv(b) && o.orderId !in b.orders
    ensures Count(Insert(b, o), o.price) == Count(b, o.price) + 1
    ensures Avail(Insert(b, o), o.price) == Avail(b, o.price) + o.remainingQuantity
  {
    var r := Insert(b, o);
    var s, p, id := o.side, o.price, o.orderId;
    var L, O := At(b.SideLevels(s), p), At(b.SideLevels(Opposite(s)), p);
    NotListed(b, id, s, p);
    NotListed(b, id, Opposite(s), p);
    RemainingConcat(r.orders, L, [id]);
    assert Remaining(r.orders, [id]) == o.remainingQuantity;
    RemainingFrameOne(r.orders, b.orders, id, L);
    RemainingFrameOne(r.orders, b.orders, id, O);
    assert Remaining(r.orders, At(r.SideLevels(s), p)) == Remaining(b.orders, L) + o.remainingQuantity;
    assert Remaining(r.orders, At(r.SideLevels(Opposite(s)), p)) == Remaining(b.orders, O);
    if s == Buy {
      assert Avail(r, p) == Remaining(r.orders, At(r.SideLevels(s), p)) + Remaining(r.orders, At(r.SideLevels(Opposite(s)), p));
    } else {
      assert Avail(r, p) == Remaining(r.orders, At(r.SideLevels(Opposite(s)), p)) + Remaining(r.orders, At(r.SideLevels(s), p));
    }
  }

  /** At a price other than the new order's nothing changes. */
  lemma InsertAggregateElsewhere(b: Book, o: Order, q: Price)
    requires o.orderId !in b.orders && q != o.price
    requires o.orderId !in At(b.bids, q) && o.orderId !in At(b.asks, q)
    requires ExactAt(b, q)
    ensures ExactAt(Insert(b, o), q)
  {
    var r := Insert(b, o);
    assert At(r.bids, q) == At(b.bids, q) && At(r.asks, q) == At(b.asks, q);
    AvailFrame(b, r, q, o.orderId);
    assert (q in r.priceLevel <==> q in b.priceLevel) && (q in r.priceLevel ==> r.priceLevel[q] == b.priceLevel[q]);
  }

  lemma InsertAggregateHere(b: Book, o: Order)
    requires o.orderId !in b.orders && o.Unfilled()
    requires LevelAt(b.priceLevel, o.price) == PriceLevelData(Count(b, o.price), Wrap32(Avail(b, o.price)))
    requires Count(Insert(b, o), o.price) == Count(b, o.price) + 1
    requires Avail(Insert(b, o), o.price) == Avail(b, o.price) + o.remainingQuantity
    ensures ExactAt(Insert(b, o), o.price)
  {
    LevelAfterAdd(b.priceLevel, o.price, o.initialQuantity, Count(b, o.price), Avail(b, o.price));
  }

  /** Adding one order of quantity `q` to an exact level gives the exact level with one more order and `q` more. */
  lemma LevelAfterAdd(pl: map<Price, PriceLevelData>, p: Price, q: Quantity, count: nat, avail: nat)
    requires LevelAt(pl, p) == PriceLevelData(count, Wrap32(avail))
    ensures var r := ApplyLevelAction(pl, p, q, Add);
      p in r && r[p] == PriceLevelData(count + 1, Wrap32(avail + q))
  {
    var r := ApplyLevelAction(pl, p, q, Add);
    Wrap32Shift(avail, q);
    assert LevelAt(r, p).totalOrders == count + 1;
  }

  lemma InsertAggregateAt(b: Book, o: Order, q: Price)
    requires Inv(b) && o.orderId !in b.orders && o.Unfilled()
    ensures ExactAt(Insert(b, o), q)
  {
    if q != o.price {
      NotListed(b, o.orderId, Buy, q);
      NotListed(b, o.orderId, Sell, q);
      InsertAggregateElsewhere(b, o, q);
    } else {
      InsertAggregateAtPrice(b, o);
      AggregateAt(b, q);
      InsertAggregateHere(b, o);
    }
  }

  lemma InsertAggregates(b: Book, o: Order)
    requires Inv(b) && o.orderId !in b.orders && o.Unfilled()
    ensures AggregatesExact(Insert(b, o))
  {
    forall q {
      InsertAggregateAt(b, o, q);
    }
  }

  /** Insertion keeps the invariant and leaves no empty level. */
  lemma InsertPreservesInv(b: Book, o: Order)
    requires Inv(b) && o.orderId !in b.orders && o.WellFormed() && o.Unfilled()
    ensures Inv(Insert(b, o))
    ensures NoEmptyLevels(b) ==> NoEmptyLevels(Insert(b, o))
  {
    InsertStructure(b, o);
    InsertAggregates(b, o);
    if NoEmptyLevels(b) {
      InsertNoEmpty(b, o);
    }
  }

  lemma InsertNoEmpty(b: Book, o: Order)
    requires o.orderId !in b.orders && NoEmptyLevels(b)
    ensures NoEmptyLevels(Insert(b, o))
  {
    var r := Insert(b, o);
    var m := b.SideLevels(o.side);
    var m' := m[o.price := At(m, o.price) + [o.orderId]];
    assert r.SideLevels(o.side) == m';
    assert forall p :: p in m' ==> m'[p] != [];
  }

  // ---------------------------------------------------------------------------
  // Cancellation

  /** The level an id would be erased from, with the id erased at its first position. */
  function LevelWithout(L: seq<OrderId>, id: OrderId): seq<OrderId> {
    if id in L then RemoveAt(L, IndexOf(L, id)) else L
  }

  /**
   * CancelOrder: an unknown id leaves the book alone; otherwise the order
   * leaves the index and its level (the level goes when it empties) and the
   * aggregate at its price loses one order and its remaining quantity.
   */
  function Cancel(b: Book, id: OrderId): (r: Book)
    ensures id !in b.orders ==> r == b
    ensures id in b.orders ==> r.orders == b.orders - {id}
  {
    if id !in b.orders then b
    else
      var o := b.orders[id];
      var m := b.SideLevels(o.side);
      var L := LevelWithout(At(m, o.price), id);
      var m' := if L == [] then m - {o.price} else m[o.price := L];
      b.WithSide(o.side, m').(orders := b.orders - {id},
                              priceLevel := ApplyLevelAction(b.priceLevel, o.price, o.remainingQuantity, Remove))
  }

  /** What cancelling a known id does to the levels and the aggregate. */
  lemma CancelShape(b: Book, id: OrderId)
    requires id in b.orders
    ensures var r, o := Cancel(b, id), b.orders[id];
      && At(r.SideLevels(o.side), o.price) == LevelWithout(At(b.SideLevels(o.side), o.price), id)
      && (o.price in r.SideLevels(o.side) <==> LevelWithout(At(b.SideLevels(o.side), o.price), id) != [])
      && (forall p :: p != o.price ==> (p in r.SideLevels(o.side) <==> p in b.SideLevels(o.side)))
      && (forall p :: p != o.price ==> At(r.SideLevels(o.side), p) == At(b.SideLevels(o.side), p))
      && r.SideLevels(Opposite(o.side)) == b.SideLevels(Opposite(o.side))
      && r.priceLevel == ApplyLevelAction(b.priceLevel, o.price, o.remainingQuantity, Remove)
  {
  }

  /** Exactly the cancelled id leaves its level, at its own position; the others keep their order. */
  lemma CancelLevel(b: Book, id: OrderId)
    requires id in b.orders && Listed(b) && Distinct(b.SideLevels(b.orders[id].side))
    ensures var o := b.orders[id];
      var L, L' := At(b.SideLevels(o.side), o.price), At(Cancel(b, id).SideLevels(o.side), o.price);
      && (exists k :: 0 <= k < |L| && L[k] == id && L' == L[..k] + L[k + 1..])
      && id !in L' && Unique(L')
      && (forall x :: x in L' <==> x in L && x != id)
  {
    CancelShape(b, id);
    var o := b.orders[id];
    var m := b.SideLevels(o.side);
    var L := At(m, o.price);
    assert id in L;
    assert o.price in m;
    var k := IndexOf(L, id);
    RemoveAtMembers(L, k);
  }

  /** Every order other than the cancelled one stays indexed and listed. */
  lemma CancelListed(b: Book, id: OrderId)
    requires id in b.orders && OrdersKeyed(b) && Listed(b) && Distinct(b.SideLevels(b.orders[id].side))
    ensures OrdersKeyed(Cancel(b, id)) && Listed(Cancel(b, id))
  {
    CancelShape(b, id);
    var r := Cancel(b, id);
    var o := b.orders[id];
    CancelLevel(b, id);
    forall x | x in r.orders
      ensures x in At(r.SideLevels(r.orders[x].side), r.orders[x].price)
    {
      var ox := b.orders[x];
      assert x in At(b.SideLevels(ox.side), ox.price);
    }
  }

  /** Every id still listed on side `t` is indexed there, at its level's price. */
  lemma CancelSideSound(b: Book, id: OrderId, t: Side)
    requires id in b.orders && Listed(b) && Distinct(b.SideLevels(b.orders[id].side))
    requires SideSound(b.SideLevels(t), b.orders, t)
    ensures SideSound(Cancel(b, id).SideLevels(t), Cancel(b, id).orders, t)
  {
    CancelShape(b, id);
    var r := Cancel(b, id);
    var o := b.orders[id];
    var m, m' := b.SideLevels(t), r.SideLevels(t);
    CancelLevel(b, id);
    forall q, i | q in m' && 0 <= i < |m'[q]|
      ensures m'[q][i] in r.orders && r.orders[m'[q][i]].side == t && r.orders[m'[q][i]].price == q
    {
      var x := m'[q][i];
      assert x in At(m', q);
      if t == o.side && q == o.price {
        assert x in At(m, q) && x != id;
      } else {
        assert At(m', q) == At(m, q);
        if t == o.side {
          assert x != id;
        } else {
          assert At(m, q)[i] == x;
          assert x != id;
        }
      }
      var j :| 0 <= j < |At(m, q)| && At(m, q)[j] == x;
      assert q in m && m[q][j] == x;
    }
  }

  /** No level of side `t` holds an id twice. */
  lemma CancelDistinct(b: Book, id: OrderId, t: Side)
    requires id in b.orders && Listed(b) && Distinct(b.SideLevels(b.orders[id].side))
    requires Distinct(b.SideLevels(t))
    ensures Distinct(Cancel(b, id).SideLevels(t))
  {
    CancelShape(b, id);
    var o := b.orders[id];
    var m, m' := b.SideLevels(t), Cancel(b, id).SideLevels(t);
    CancelLevel(b, id);
    forall q | q in m'
      ensures Unique(m'[q])
    {
      if t != o.side || q != o.price {
        assert m'[q] == At(m, q);
      }
    }
  }

  /** At a price other than the cancelled order's nothing changes. */
  lemma CancelAggregateElsewhere(b: Book, id: OrderId, q: Price)
    requires id in b.orders && q != b.orders[id].price
    requires id !in At(b.bids, q) && id !in At(b.asks, q)
    requires ExactAt(b, q)
    ensures ExactAt(Cancel(b, id), q)
  {
    CancelShape(b, id);
    var r := Cancel(b, id);
    var o := b.orders[id];
    assert At(r.bids, q) == At(b.bids, q) && At(r.asks, q) == At(b.asks, q);
    AvailFrame(b, r, q, id);
    assert r.priceLevel == ApplyLevelAction(b.priceLevel, o.price, o.remainingQuantity, Remove);
    assert (q in r.priceLevel <==> q in b.priceLevel) && (q in r.priceLevel ==> r.priceLevel[q] == b.priceLevel[q]);
  }

  /** Splitting a level around the cancelled id's position. */
  lemma RemainingWithout(o1: map<OrderId, Order>, o2: map<OrderId, Order>, L: seq<OrderId>, k: nat, id: OrderId)
    requires k < |L| && L[k] == id && Unique(L)
    requires forall x :: x != id ==> RemainingOf(o1, x) == RemainingOf(o2, x)
    ensures Remaining(o2, L[..k] + L[k + 1..]) == Remaining(o1, L) - RemainingOf(o1, id)
  {
    assert id !in L[..k] && id !in L[k + 1..] by {
      forall i | 0 <= i < |L| && i != k ensures L[i] != id { }
    }
    assert L == L[..k] + [id] + L[k + 1..];
    RemainingConcat(o1, L[..k] + [id], L[k + 1..]);
    RemainingConcat(o1, L[..k], [id]);
    assert Remaining(o1, [id]) == RemainingOf(o1, id);
    RemainingConcat(o2, L[..k], L[k + 1..]);
    RemainingFrameOne(o2, o1, id, L[..k]);
    RemainingFrameOne(o2, o1, id, L[k + 1..]);
  }

  /** At the cancelled order's price: one order fewer and its remaining quantity less. */
  lemma CancelAggregateAtPrice(b: Book, id: OrderId)
    requires id in b.orders && Listed(b) && Distinct(b.SideLevels(b.orders[id].side))
    requires id !in At(b.SideLevels(Opposite(b.orders[id].side)), b.orders[id].price)
    ensures var o := b.orders[id];
      && Count(Cancel(b, id), o.price) == Count(b, o.price) - 1
      && Avail(Cancel(b, id), o.price) == Avail(b, o.price) - o.remainingQuantity
  {
    CancelShape(b, id);
    var r := Cancel(b, id);
    var o := b.orders[id];
    var s, p := o.side, o.price;
    var L, O := At(b.SideLevels(s), p), At(b.SideLevels(Opposite(s)), p);
    assert id in L;
    var k := IndexOf(L, id);
    assert At(r.SideLevels(s), p) == L[..k] + L[k + 1..];
    assert Unique(L) by { assert p in b.SideLevels(s); }
    RemainingWithout(b.orders, r.orders, L, k, id);
    RemainingFrameOne(r.orders, b.orders, id, O);
    var Rs, Ro := Remaining(r.orders, At(r.SideLevels(s), p)), Remaining(r.orders, At(r.SideLevels(Opposite(s)), p));
    assert Rs == Remaining(b.orders, L) - o.remainingQuantity;
    assert Ro == Remaining(b.orders, O);
    if s == Buy {
      assert Avail(r, p) == Rs + Ro;
    } else {
      assert Avail(r, p) == Ro + Rs;
    }
  }

  /** Taking one order of quantity `q` out of an exact level gives the exact level with one fewer order and `q` less. */
  lemma LevelAfterRemove(pl: map<Price, PriceLevelData>, p: Price, q: Quantity, count: nat, avail: nat)
    requires LevelAt(pl, p) == PriceLevelData(count, Wrap32(avail)) && count >= 1 && avail >= q
    ensures var r := ApplyLevelAction(pl, p, q, Remove);
      (p in r <==> count > 1) &&
      (p in r ==> r[p] == PriceLevelData(count - 1, Wrap32(avail - q)))
  {
    var r := ApplyLevelAction(pl, p, q, Remove);
    Wrap32Shift(avail, -(q as int));
    assert LevelAt(r, p).totalOrders == count - 1;
  }

  lemma CancelAggregateHere(b: Book, id: OrderId)
    requires id in b.orders
    requires var o := b.orders[id];
      && LevelAt(b.priceLevel, o.price) == PriceLevelData(Count(b, o.price), Wrap32(Avail(b, o.price)))
      && Count(b, o.price) >= 1 && Avail(b, o.price) >= o.remainingQuantity
      && Count(Cancel(b, id), o.price) == Count(b, o.price) - 1
      && Avail(Cancel(b, id), o.price) == Avail(b, o.price) - o.remainingQuantity
    ensures ExactAt(Cancel(b, id), b.orders[id].price)
  {
    CancelShape(b, id);
    var o := b.orders[id];
    LevelAfterRemove(b.priceLevel, o.price, o.remainingQuantity, Count(b, o.price), Avail(b, o.price));
  }

  lemma CancelAggregateAt(b: Book, id: OrderId, q: Price)
    requires Inv(b) && id in b.orders
    ensures ExactAt(Cancel(b, id), q)
  {
    var o := b.orders[id];
    AggregateAt(b, q);
    if q != o.price {
      NotElsewhere(b, id, Buy, q);
      NotElsewhere(b, id, Sell, q);
      CancelAggregateElsewhere(b, id, q);
    } else {
      NotElsewhere(b, id, Opposite(o.side), q);
      CancelAggregateAtPrice(b, id);
      CancelAggregateHere(b, id);
    }
  }

  lemma CancelAggregates(b: Book, id: OrderId)
    requires Inv(b) && id in b.orders
    ensures AggregatesExact(Cancel(b, id))
  {
    forall q {
      CancelAggregateAt(b, id, q);
    }
  }

  lemma CancelNoEmpty(b: Book, id: OrderId)
    requires id in b.orders && NoEmptyLevels(b)
    ensures NoEmptyLevels(Cancel(b, id))
  {
    CancelShape(b, id);
    var o := b.orders[id];
    var m, m' := b.SideLevels(o.side), Cancel(b, id).SideLevels(o.side);
    forall p | p in m'
      ensures m'[p] != []
    {
      if p != o.price {
        assert At(m', p) == At(m, p);
      }
    }
  }

  /** Cancellation keeps the invariant and leaves no empty level. */
  lemma CancelPreservesInv(b: Book, id: OrderId)
    requires Inv(b)
    ensures Inv(Cancel(b, id))
    ensures NoEmptyLevels(b) ==> NoEmptyLevels(Cancel(b, id))
  {
    if id in b.orders {
      CancelListed(b, id);
      CancelSideSound(b, id, Buy);
      CancelSideSound(b, id, Sell);
      CancelDistinct(b, id, Buy);
      CancelDistinct(b, id, Sell);
      CancelAggregates(b, id);
      if NoEmptyLevels(b) {
        CancelNoEmpty(b, id);
      }
    }
  }

  /** Cancellation only ever removes a level, so it cannot cross the book. */
  lemma CancelKeepsUncrossed(b: Book, id: OrderId)
    ensures !Crossed(b) ==> !Crossed(Cancel(b, id))
  {
    var r := Cancel(b, id);
    if id in b.orders {
      CancelShape(b, id);
      var o := b.orders[id];
      assert r.SideLevels(o.side).Keys <= b.SideLevels(o.side).Keys;
      assert r.SideLevels(Opposite(o.side)) == b.SideLevels(Opposite(o.side));
      assert r.bids == r.SideLevels(Buy) && r.asks == r.SideLevels(Sell);
    }
    if !Crossed(b) {
      FewerLevelsUncrossed(b, r);
    }
  }
}
