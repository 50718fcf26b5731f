/**
 * GetOrderBookInfo (src/orderBook.cpp): every level of each side, in the
 * side's order, with the uint32 sum of its orders' remaining quantities.
 */
module Snapshot {
  import opened Common
  import opened Orders
  import opened BookState

  /** `p` comes before `q` in side `s`'s map order: `std::greater` for bids, `std::less` for asks. */
  predicate Ahead(s: Side, p: Price, q: Price) {
    if s == Buy then p > q else p < q
  }

  /** The first key of `rest` in side `s`'s map order. */
  function FirstKey(s: Side, rest: set<Price>): (p: Price)
    requires rest != {}
    ensures p in rest && forall q :: q in rest && q != p ==> Ahead(s, p, q)
  {
    if s == Buy then MaxKey(rest) else MinKey(rest)
  }

  /** `x` reports a level of `m` with the wrapped sum of the remaining quantities resting there. */
  ghost predicate Describes(x: PriceLevelInfo, m: Levels, orders: map<OrderId, Order>) {
    x.price in m && x.quantity == Wrap32(Remaining(orders, m[x.price]))
  }

  /** The prices a listing mentions. */
  ghost function Prices(infos: seq<PriceLevelInfo>): set<Price> {
    set i | 0 <= i < |infos| :: infos[i].price
  }

  lemma PricesAppend(infos: seq<PriceLevelInfo>, x: PriceLevelInfo)
    ensures Prices(infos + [x]) == Prices(infos) + {x.price}
  {
    var r := infos + [x];
    assert r[|infos|].price == x.price;
    forall p | p in Prices(infos) ensures p in Prices(r) {
      var i :| 0 <= i < |infos| && infos[i].price == p;
      assert r[i].price == p;
    }
  }

  /** Appending the first remaining key keeps a listing in side order and ahead of what remains. */
  lemma ExtendOrdered(infos: seq<PriceLevelInfo>, x: PriceLevelInfo, s: Side, rest: set<Price>)
    requires forall i, j :: 0 <= i < j < |infos| ==> Ahead(s, infos[i].price, infos[j].price)
    requires forall i, p :: 0 <= i < |infos| && p in rest ==> Ahead(s, infos[i].price, p)
    requires x.price in rest && forall q :: q in rest && q != x.price ==> Ahead(s, x.price, q)
    ensures forall i, j :: 0 <= i < j < |infos + [x]| ==> Ahead(s, (infos + [x])[i].price, (infos + [x])[j].price)
    ensures forall i, p :: 0 <= i < |infos + [x]| && p in rest - {x.price} ==> Ahead(s, (infos + [x])[i].price, p)
  {
  }

  /** `std::accumulate` of the remaining quantities in uint32 arithmetic: the exact sum, wrapped. */
  method LevelQuantity(orders: map<OrderId, Order>, ids: seq<OrderId>) returns (total: Quantity)
    ensures total == Wrap32(Remaining(orders, ids))
  {
    total := 0;
    var i := 0;
    while i < |ids|
      invariant 0 <= i <= |ids|
      invariant total == Wrap32(Remaining(orders, ids[..i]))
    {
      RemainingConcat(orders, ids[..i], [ids[i]]);
      assert ids[..i + 1] == ids[..i] + [ids[i]];
      Wrap32Shift(Remaining(orders, ids[..i]), RemainingOf(orders, ids[i]));
      total := Wrap32(total + RemainingOf(orders, ids[i]));
      i := i + 1;
    }
    assert ids[..i] == ids;
  }

  /**
   * `infos` lists the levels of `m` in the order of side `s` (bids from the
   * highest price down, asks from the lowest up), one entry per level, each
   * with the wrapped sum of the remaining quantities resting there.
   */
  ghost predicate Lists(infos: seq<PriceLevelInfo>, m: Levels, orders: map<OrderId, Order>, s: Side) {
    && (forall i :: 0 <= i < |infos| ==> Describes(infos[i], m, orders))
    && Prices(infos) == m.Keys
    && (forall i, j :: 0 <= i < j < |infos| ==> Ahead(s, infos[i].price, infos[j].price))
  }

  /** The loop's invariant: `infos` lists, in side order, the levels of `m` outside `rest`, all ahead of `rest`. */
  ghost predicate ListedSoFar(infos: seq<PriceLevelInfo>, m: Levels, orders: map<OrderId, Order>, s: Side, rest: set<Price>) {
    && rest <= m.Keys
    && (forall i :: 0 <= i < |infos| ==> Describes(infos[i], m, orders))
    && Prices(infos) == m.Keys - rest
    && (forall i, j :: 0 <= i < j < |infos| ==> Ahead(s, infos[i].price, infos[j].price))
    && (forall i, p :: 0 <= i < |infos| && p in rest ==> Ahead(s, infos[i].price, p))
  }

  /** Listing the first remaining level next keeps the loop's invariant. */
  lemma ListStep(infos: seq<PriceLevelInfo>, m: Levels, orders: map<OrderId, Order>, s: Side, rest: set<Price>, x: PriceLevelInfo)
    requires ListedSoFar(infos, m, orders, s, rest)
    requires x.price in rest && Describes(x, m, orders)
    requires forall q :: q in rest && q != x.price ==> Ahead(s, x.price, q)
    ensures ListedSoFar(infos + [x], m, orders, s, rest - {x.price})
  {
    PricesAppend(infos, x);
    ExtendOrdered(infos, x, s, rest);
    var r := infos + [x];
    assert forall i :: 0 <= i < |r| ==> Describes(r[i], m, orders) by {
      forall i | 0 <= i < |r| ensures Describes(r[i], m, orders) {
        if i < |infos| {
          assert r[i] == infos[i];
        }
      }
    }
  }

  /** One side's loop of GetOrderBookInfo: the levels in the side's order, each with its accumulated quantity. */
  method ListLevels(m: Levels, orders: map<OrderId, Order>, s: Side) returns (infos: seq<PriceLevelInfo>)
    ensures Lists(infos, m, orders, s)
  {
    infos := [];
    var rest := m.Keys;
    while rest != {}
      invariant ListedSoFar(infos, m, orders, s, rest)
      decreases |rest|
    {
      var p := FirstKey(s, rest);
      var q := LevelQuantity(orders, m[p]);
      ListStep(infos, m, orders, s, rest, PriceLevelInfo(p, q));
      infos := infos + [PriceLevelInfo(p, q)];
      rest := rest - {p};
    }
  }

  /**
   * Where only one side rests at a price, the snapshot's quantity for that
   * level is the aggregate's available quantity.
   */
  lemma SnapshotMatchesAggregate(b: Book, s: Side, p: Price)
    requires Inv(b) && p in b.SideLevels(s) && p !in b.SideLevels(Opposite(s))
    requires b.SideLevels(s)[p] != []
    ensures p in b.priceLevel
    ensures Wrap32(Remaining(b.orders, b.SideLevels(s)[p])) == b.priceLevel[p].availableQuantity
  {
    assert ExactAt(b, p);
    ExactOneSided(b, s, p);
  }

  /** An exact aggregate at a price held by one side only is that side's level sum. */
  lemma ExactOneSided(b: Book, s: Side, p: Price)
    requires ExactAt(b, p) && p in b.SideLevels(s) && p !in b.SideLevels(Opposite(s))
    requires b.SideLevels(s)[p] != []
    ensures p in b.priceLevel
    ensures Wrap32(Remaining(b.orders, b.SideLevels(s)[p])) == b.priceLevel[p].availableQuantity
  {
    var level := b.SideLevels(s)[p];
    assert Remaining(b.orders, []) == 0;
    if s == Buy {
      assert At(b.bids, p) == level && At(b.asks, p) == [];
    } else {
      assert At(b.asks, p) == level && At(b.bids, p) == [];
    }
    assert Count(b, p) == |level| > 0;
    assert Avail(b, p) == Remaining(b.orders, level);
  }

}
