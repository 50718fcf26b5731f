/**
 * The matching loop of MatchOrder (src/orderBook.cpp) on the book value:
 * one fill of a level's front order, one step that fills the best bid and
 * best ask fronts against each other, the inner loop that drains two levels,
 * the outer loop that runs until the book is uncrossed, and the clean-up of
 * a FillOrKill order left at a best level's front.
 */
module Matching {
  import opened Common
  import opened Orders
  import opened BookState
  import opened BookOps

  // ---------------------------------------------------------------------------
  // Filling one front order

  /** The level at `p` on side `s` exists, is non-empty and its front order is indexed. */
  ghost predicate HasFront(b: Book, s: Side, p: Price) {
    p in b.SideLevels(s) && b.SideLevels(s)[p] != [] && b.SideLevels(s)[p][0] in b.orders
  }

  /** Orders sit under their own ids, and both sides list only indexed orders of their own side at their own price. */
  ghost predicate Sound(b: Book) {
    OrdersKeyed(b) && SideSound(b.bids, b.orders, Buy) && SideSound(b.asks, b.orders, Sell)
  }

  /** Two non-empty best levels to fill against each other. */
  ghost predicate CanPass(b: Book, bp: Price, ap: Price) {
    Sound(b) && bp in b.bids && b.bids[bp] != [] && ap in b.asks && b.asks[ap] != []
  }

  lemma SoundSide(b: Book, s: Side)
    requires Sound(b)
    ensures OrdersKeyed(b) && SideSound(b.SideLevels(s), b.orders, s)
  {
  }

  function FrontId(b: Book, s: Side, p: Price): OrderId
    requires HasFront(b, s, p)
  {
    b.SideLevels(s)[p][0]
  }

  function Front(b: Book, s: Side, p: Price): Order
    requires HasFront(b, s, p)
  {
    b.orders[FrontId(b, s, p)]
  }

  /** Under the invariant every non-empty level has an indexed front order, of that side and price. */
  lemma FrontFacts(b: Book, s: Side, p: Price)
    requires OrdersKeyed(b) && SideSound(b.SideLevels(s), b.orders, s) && p in b.SideLevels(s) && b.SideLevels(s)[p] != []
    ensures HasFront(b, s, p) && Front(b, s, p).side == s && Front(b, s, p).price == p
    ensures Front(b, s, p).orderId == FrontId(b, s, p)
  {
    assert b.SideLevels(s)[p][0] in b.orders;
  }

  /**
   * Fills the front order of the level at `p` on side `s` by `q`: a filled
   * order leaves the level front and the index and is counted out of the
   * aggregate with Remove; a partially filled one stays at the front and the
   * aggregate loses `q` with Match.
   */
  function FillFront(b: Book, s: Side, p: Price, q: Quantity): (r: Book)
    requires HasFront(b, s, p) && q <= Front(b, s, p).remainingQuantity
    ensures r.SideLevels(Opposite(s)) == b.SideLevels(Opposite(s))
  {
    var L := b.SideLevels(s)[p];
    var filled := b.orders[L[0]].FillOrder(q).value;
    if filled.IsFilled() then
      b.WithSide(s, b.SideLevels(s)[p := L[1..]]).(orders := b.orders - {L[0]},
                                                    priceLevel := ApplyLevelAction(b.priceLevel, filled.price, q, Remove))
    else
      b.(orders := b.orders[L[0] := filled],
         priceLevel := ApplyLevelAction(b.priceLevel, filled.price, q, Match))
  }

  /**
   * A filled front order leaves the front of its level and the index and is
   * counted out with Remove; a partially filled one stays with `q` less
   * remaining and the aggregate loses `q` with Match.
   */
  lemma FillFrontShape(b: Book, s: Side, p: Price, q: Quantity)
    requires HasFront(b, s, p) && q <= Front(b, s, p).remainingQuantity
    ensures var r, id, o := FillFront(b, s, p, q), FrontId(b, s, p), Front(b, s, p);
      && (q == o.remainingQuantity ==>
            && r.orders == b.orders - {id}
            && r.SideLevels(s) == b.SideLevels(s)[p := b.SideLevels(s)[p][1..]]
            && r.priceLevel == ApplyLevelAction(b.priceLevel, o.price, q, Remove))
      && (q < o.remainingQuantity ==>
            && r.orders == b.orders[id := o.(remainingQuantity := o.remainingQuantity - q)]
            && r.SideLevels(s) == b.SideLevels(s)
            && r.priceLevel == ApplyLevelAction(b.priceLevel, o.price, q, Match))
  {
  }

  /** Every indexed order stays well formed and listed. */
  lemma FillFrontListed(b: Book, s: Side, p: Price, q: Quantity)
    requires HasFront(b, s, p) && q <= Front(b, s, p).remainingQuantity
    requires OrdersKeyed(b) && Listed(b) && Unique(b.SideLevels(s)[p])
    requires Front(b, s, p).side == s && Front(b, s, p).price == p
    ensures OrdersKeyed(FillFront(b, s, p, q)) && Listed(FillFront(b, s, p, q))
  {
    FillFrontShape(b, s, p, q);
    var r := FillFront(b, s, p, q);
    var L, id := b.SideLevels(s)[p], FrontId(b, s, p);
    forall x | x in r.orders
      ensures r.orders[x].orderId == x && r.orders[x].WellFormed()
      ensures x in At(r.SideLevels(r.orders[x].side), r.orders[x].price)
    {
      var ox := b.orders[x];
      assert x in At(b.SideLevels(ox.side), ox.price);
      if ox.side == s && ox.price == p && q == Front(b, s, p).remainingQuantity {
        assert x in L && x != L[0];
        var j :| 0 <= j < |L| && L[j] == x;
        assert L[1..][j - 1] == x;
      }
    }
  }

  /** Every id still listed on side `t` is indexed there, at its level's price. */
  lemma FillFrontSideSound(b: Book, s: Side, p: Price, q: Quantity, t: Side)
    requires HasFront(b, s, p) && q <= Front(b, s, p).remainingQuantity
    requires SideSound(b.SideLevels(t), b.orders, t) && Unique(b.SideLevels(s)[p])
    requires Front(b, s, p).side == s && Front(b, s, p).price == p
    ensures SideSound(FillFront(b, s, p, q).SideLevels(t), FillFront(b, s, p, q).orders, t)
  {
    FillFrontShape(b, s, p, q);
    var r := FillFront(b, s, p, q);
    var m, m' := b.SideLevels(t), r.SideLevels(t);
    var L, id := b.SideLevels(s)[p], FrontId(b, s, p);
    forall p', i | p' in m' && 0 <= i < |m'[p']|
      ensures m'[p'][i] in r.orders && r.orders[m'[p'][i]].side == t && r.orders[m'[p'][i]].price == p'
    {
      if t == s && p' == p && q == Front(b, s, p).remainingQuantity {
        assert m'[p'][i] == L[i + 1];
        assert L[i + 1] != L[0];
      } else {
        assert m'[p'][i] == m[p'][i];
      }
    }
  }

  /** No level of side `t` holds an id twice. */
  lemma FillFrontDistinct(b: Book, s: Side, p: Price, q: Quantity, t: Side)
    requires HasFront(b, s, p) && q <= Front(b, s, p).remainingQuantity
    requires Distinct(b.SideLevels(t))
    ensures Distinct(FillFront(b, s, p, q).SideLevels(t))
  {
    FillFrontShape(b, s, p, q);
    var m, m' := b.SideLevels(t), FillFront(b, s, p, q).SideLevels(t);
    forall p' | p' in m'
      ensures Unique(m'[p'])
    {
      if t == s && p' == p {
        assert Unique(m[p']);
      }
    }
  }

  /** At any other price nothing changes. */
  lemma FillFrontAggregateElsewhere(b: Book, s: Side, p: Price, q: Quantity, x: Price)
    requires HasFront(b, s, p) && q <= Front(b, s, p).remainingQuantity
    requires Front(b, s, p).price == p && x != p
    requires FrontId(b, s, p) !in At(b.bids, x) && FrontId(b, s, p) !in At(b.asks, x)
    requires ExactAt(b, x)
    ensures ExactAt(FillFront(b, s, p, q), x)
  {
    FillFrontShape(b, s, p, q);
    var r := FillFront(b, s, p, q);
    var o := Front(b, s, p);
    assert At(r.bids, x) == At(b.bids, x) && At(r.asks, x) == At(b.asks, x);
    AvailFrame(b, r, x, FrontId(b, s, p));
    var action := if q == o.remainingQuantity then Remove else Match;
    assert r.priceLevel == ApplyLevelAction(b.priceLevel, p, q, action);
    assert (x in r.priceLevel <==> x in b.priceLevel) && (x in r.priceLevel ==> r.priceLevel[x] == b.priceLevel[x]);
  }

  /** At the level's price: `q` less, and one order fewer exactly when the front order is filled. */
  lemma FillFrontAggregateAtPrice(b: Book, s: Side, p: Price, q: Quantity)
    requires HasFront(b, s, p) && q <= Front(b, s, p).remainingQuantity
    requires Unique(b.SideLevels(s)[p]) && Front(b, s, p).price == p
    requires FrontId(b, s, p) !in At(b.SideLevels(Opposite(s)), p)
    ensures var r, o := FillFront(b, s, p, q), Front(b, s, p);
      && Count(r, p) == Count(b, p) - (if q == o.remainingQuantity then 1 else 0)
      && Avail(r, p) == Avail(b, p) - q
  {
    FillFrontShape(b, s, p, q);
    var r, o, id := FillFront(b, s, p, q), Front(b, s, p), FrontId(b, s, p);
    var L, O := b.SideLevels(s)[p], At(b.SideLevels(Opposite(s)), p);
    assert L[..0] + L[1..] == L[1..];
    RemainingWithout(b.orders, b.orders - {id}, L, 0, id);
    RemainingFrameOne(r.orders, b.orders, id, O);
    var Rs, Ro := Remaining(r.orders, At(r.SideLevels(s), p)), Remaining(r.orders, At(r.SideLevels(Opposite(s)), p));
    if q == o.remainingQuantity {
      assert At(r.SideLevels(s), p) == L[..0] + L[1..];
      RemainingFrameOne(r.orders, b.orders - {id}, id, L[1..]) by {
        assert L[0] !in L[1..] by {
          forall i | 0 <= i < |L[1..]| ensures L[1..][i] != L[0] { assert L[1..][i] == L[i + 1]; }
        }
      }
    } else {
      assert At(r.SideLevels(s), p) == L;
      assert L[0] !in L[1..] by {
        forall i | 0 <= i < |L[1..]| ensures L[1..][i] != L[0] { assert L[1..][i] == L[i + 1]; }
      }
      RemainingFrameOne(r.orders, b.orders - {id}, id, L[1..]);
      assert Remaining(r.orders, L) == RemainingOf(r.orders, id) + Remaining(r.orders, L[1..]);
    }
    assert Rs == Remaining(b.orders, L) - q;
    assert Ro == Remaining(b.orders, O);
    if s == Buy {
      assert Avail(r, p) == Rs + Ro;
    } else {
      assert Avail(r, p) == Ro + Rs;
    }
  }

  /** Taking `q` off an exact level without removing an order gives the exact level with `q` less. */
  lemma LevelAfterMatch(pl: map<Price, PriceLevelData>, p: Price, q: Quantity, count: nat, avail: nat)
    requires LevelAt(pl, p) == PriceLevelData(count, Wrap32(avail)) && count >= 1 && avail >= q
    ensures var r := ApplyLevelAction(pl, p, q, Match);
      p in r && r[p] == PriceLevelData(count, Wrap32(avail - q))
  {
    var r := ApplyLevelAction(pl, p, q, Match);
    Wrap32Shift(avail, -(q as int));
    assert LevelAt(r, p).totalOrders == count;
  }

  lemma FillFrontAggregateHere(b: Book, s: Side, p: Price, q: Quantity)
    requires HasFront(b, s, p) && q <= Front(b, s, p).remainingQuantity
    requires Front(b, s, p).price == p && ExactAt(b, p)
    requires Count(b, p) >= 1 && Avail(b, p) >= q
    requires var r, o := FillFront(b, s, p, q), Front(b, s, p);
      && Count(r, p) == Count(b, p) - (if q == o.remainingQuantity then 1 else 0)
      && Avail(r, p) == Avail(b, p) - q
    ensures ExactAt(FillFront(b, s, p, q), p)
  {
    FillFrontShape(b, s, p, q);
    AggregateAt(b, p);
    if q == Front(b, s, p).remainingQuantity {
      LevelAfterRemove(b.priceLevel, p, q, Count(b, p), Avail(b, p));
    } else {
      LevelAfterMatch(b.priceLevel, p, q, Count(b, p), Avail(b, p));
    }
  }

  lemma FillFrontAggregateAt(b: Book, s: Side, p: Price, q: Quantity, x: Price)
    requires Inv(b) && HasFront(b, s, p) && q <= Front(b, s, p).remainingQuantity
    ensures ExactAt(FillFront(b, s, p, q), x)
  {
    SideFacts(b, s);
    FrontFacts(b, s, p);
    var id := FrontId(b, s, p);
    assert ExactAt(b, x);
    if x != p {
      NotElsewhere(b, id, Buy, x);
      NotElsewhere(b, id, Sell, x);
      FillFrontAggregateElsewhere(b, s, p, q, x);
    } else {
      SideFacts(b, s);
      NotElsewhere(b, id, Opposite(s), p);
      FillFrontAggregateAtPrice(b, s, p, q);
      var L := b.SideLevels(s)[p];
      assert Remaining(b.orders, L) >= q;
      assert Count(b, p) >= 1 && Avail(b, p) >= q by {
        if s == Buy { assert At(b.bids, p) == L; } else { assert At(b.asks, p) == L; }
      }
      FillFrontAggregateHere(b, s, p, q);
    }
  }

  /** One fill keeps the invariant. */
  lemma FillFrontPreservesInv(b: Book, s: Side, p: Price, q: Quantity)
    requires Inv(b) && HasFront(b, s, p) && q <= Front(b, s, p).remainingQuantity
    ensures Inv(FillFront(b, s, p, q))
  {
    SideFacts(b, s);
    FrontFacts(b, s, p);
    FillFrontListed(b, s, p, q);
    FillFrontSideSound(b, s, p, q, Buy);
    FillFrontSideSound(b, s, p, q, Sell);
    FillFrontDistinct(b, s, p, q, Buy);
    FillFrontDistinct(b, s, p, q, Sell);
    FillFrontAggregates(b, s, p, q);
    var r := FillFront(b, s, p, q);
    assert r.bids == r.SideLevels(Buy) && r.asks == r.SideLevels(Sell);
  }

  lemma FillFrontAggregates(b: Book, s: Side, p: Price, q: Quantity)
    requires Inv(b) && HasFront(b, s, p) && q <= Front(b, s, p).remainingQuantity
    ensures AggregatesExact(FillFront(b, s, p, q))
  {
    forall x
      ensures ExactAt(FillFront(b, s, p, q), x)
    {
      FillFrontAggregateAt(b, s, p, q, x);
    }
  }

  /** One fill keeps every level key, and removes the front order from the index exactly when it is filled. */
  lemma FillFrontKeys(b: Book, s: Side, p: Price, q: Quantity)
    requires HasFront(b, s, p) && q <= Front(b, s, p).remainingQuantity
    ensures var r := FillFront(b, s, p, q);
      && r.bids.Keys == b.bids.Keys && r.asks.Keys == b.asks.Keys
      && |r.orders| == |b.orders| - (if q == Front(b, s, p).remainingQuantity then 1 else 0)
      && r.orders.Keys <= b.orders.Keys
  {
    FillFrontShape(b, s, p, q);
    var r := FillFront(b, s, p, q);
    assert r.bids == r.SideLevels(Buy) && r.asks == r.SideLevels(Sell);
    assert b.bids == b.SideLevels(Buy) && b.asks == b.SideLevels(Sell);
  }

  // ---------------------------------------------------------------------------
  // The inner loop: filling the best bid front against the best ask front

  /**
   * One pass of the inner loop: the two fronts are filled by the smaller of
   * their remaining quantities and one trade records both legs, each with its
   * order's id, that quantity and its order's price.
   */
  function FillFronts(b: Book, bp: Price, ap: Price): (r: (Book, Trade))
    requires CanPass(b, bp, ap)
    ensures r.1.bidTrade.price == bp && r.1.askTrade.price == ap
    ensures r.1.bidTrade.quantity == r.1.askTrade.quantity
  {
    SoundSide(b, Buy);
    SoundSide(b, Sell);
    FrontFacts(b, Buy, bp);
    FrontFacts(b, Sell, ap);
    var bid, ask := Front(b, Buy, bp), Front(b, Sell, ap);
    var q := Min(bid.remainingQuantity, ask.remainingQuantity);
    AskFrontAfterBidFill(b, bp, ap, q);
    var b2 := FillFront(FillFront(b, Buy, bp, q), Sell, ap, q);
    (b2, Trade(TradeInfo(bid.orderId, q, bid.price), TradeInfo(ask.orderId, q, ask.price)))
  }

  /** Filling the bid front leaves the ask front as it was. */
  lemma AskFrontAfterBidFill(b: Book, bp: Price, ap: Price, q: Quantity)
    requires HasFront(b, Buy, bp) && HasFront(b, Sell, ap) && q <= Front(b, Buy, bp).remainingQuantity
    requires Front(b, Buy, bp).side == Buy && Front(b, Sell, ap).side == Sell
    ensures HasFront(FillFront(b, Buy, bp, q), Sell, ap)
    ensures Front(FillFront(b, Buy, bp, q), Sell, ap) == Front(b, Sell, ap)
  {
    var b1 := FillFront(b, Buy, bp, q);
    assert b1.asks == b.asks;
    assert FrontId(b, Sell, ap) != FrontId(b, Buy, bp);
  }

  /** One pass keeps the invariant. */
  lemma FillFrontsPreservesInv(b: Book, bp: Price, ap: Price)
    requires Inv(b) && bp in b.bids && b.bids[bp] != [] && ap in b.asks && b.asks[ap] != []
    ensures Inv(FillFronts(b, bp, ap).0)
  {
    SideFacts(b, Buy);
    SideFacts(b, Sell);
    FrontFacts(b, Buy, bp);
    FrontFacts(b, Sell, ap);
    var q := Min(Front(b, Buy, bp).remainingQuantity, Front(b, Sell, ap).remainingQuantity);
    FillFrontPreservesInv(b, Buy, bp, q);
    AskFrontAfterBidFill(b, bp, ap, q);
    FillFrontPreservesInv(FillFront(b, Buy, bp, q), Sell, ap, q);
  }

  /** One pass keeps every level key and retires at least one order. */
  lemma FillFrontsShrinks(b: Book, bp: Price, ap: Price)
    requires Inv(b) && bp in b.bids && b.bids[bp] != [] && ap in b.asks && b.asks[ap] != []
    ensures var r := FillFronts(b, bp, ap).0;
      && r.bids.Keys == b.bids.Keys && r.asks.Keys == b.asks.Keys
      && |r.orders| < |b.orders| && r.orders.Keys <= b.orders.Keys
  {
    SideFacts(b, Buy);
    SideFacts(b, Sell);
    FrontFacts(b, Buy, bp);
    FrontFacts(b, Sell, ap);
    var bid, ask := Front(b, Buy, bp), Front(b, Sell, ap);
    var q := Min(bid.remainingQuantity, ask.remainingQuantity);
    FillFrontKeys(b, Buy, bp, q);
    AskFrontAfterBidFill(b, bp, ap, q);
    var b1 := FillFront(b, Buy, bp, q);
    FillFrontKeys(b1, Sell, ap, q);
    assert q == bid.remainingQuantity || q == ask.remainingQuantity;
  }

  /** One pass touches no level but the best bid level and the best ask level. */
  lemma FillFrontsFrame(b: Book, bp: Price, ap: Price)
    requires CanPass(b, bp, ap)
    ensures var r := FillFronts(b, bp, ap).0;
      && (forall p :: p != bp ==> At(r.bids, p) == At(b.bids, p))
      && (forall p :: p != ap ==> At(r.asks, p) == At(b.asks, p))
  {
    SoundSide(b, Buy);
    SoundSide(b, Sell);
    FrontFacts(b, Buy, bp);
    FrontFacts(b, Sell, ap);
    var q := Min(Front(b, Buy, bp).remainingQuantity, Front(b, Sell, ap).remainingQuantity);
    AskFrontAfterBidFill(b, bp, ap, q);
    var b1 := FillFront(b, Buy, bp, q);
    var b2 := FillFront(b1, Sell, ap, q);
    assert b1.asks == b.asks && b2.bids == b1.bids;
  }

  /**
   * What one pass does to the two fronts: both are filled by the smaller of
   * their remaining quantities, and at least one of the two is filled.
   */
  lemma FillFrontsQuantity(b: Book, bp: Price, ap: Price)
    requires CanPass(b, bp, ap)
    ensures var t := FillFronts(b, bp, ap).1;
      var bid, ask := b.orders[b.bids[bp][0]], b.orders[b.asks[ap][0]];
      && t.bidTrade.orderId == b.bids[bp][0] && t.askTrade.orderId == b.asks[ap][0]
      && t.bidTrade.quantity == Min(bid.remainingQuantity, ask.remainingQuantity)
      && (t.bidTrade.quantity == bid.remainingQuantity || t.bidTrade.quantity == ask.remainingQuantity)
  {
    SoundSide(b, Buy);
    SoundSide(b, Sell);
    FrontFacts(b, Buy, bp);
    FrontFacts(b, Sell, ap);
  }

  /**
   * The bid leg of a pass: a filled bid leaves the front of its level and the
   * index; a partially filled one keeps its place at the front with the traded
   * quantity less remaining.
   */
  lemma FillFrontsBidLeg(b: Book, bp: Price, ap: Price)
    requires CanPass(b, bp, ap)
    ensures var (r, t) := FillFronts(b, bp, ap);
      var id, q := b.bids[bp][0], t.bidTrade.quantity;
      var o := b.orders[id];
      && (id in r.orders <==> q < o.remainingQuantity)
      && (id in r.orders ==> r.orders[id] == o.(remainingQuantity := o.remainingQuantity - q) && r.bids[bp] == b.bids[bp])
      && (id !in r.orders ==> r.bids[bp] == b.bids[bp][1..])
  {
    SoundSide(b, Buy);
    SoundSide(b, Sell);
    FrontFacts(b, Buy, bp);
    FrontFacts(b, Sell, ap);
    var q := Min(Front(b, Buy, bp).remainingQuantity, Front(b, Sell, ap).remainingQuantity);
    AskFrontAfterBidFill(b, bp, ap, q);
    var b1 := FillFront(b, Buy, bp, q);
    var b2 := FillFront(b1, Sell, ap, q);
    assert b2.bids == b1.bids;
    assert FrontId(b1, Sell, ap) != FrontId(b, Buy, bp);
  }

  /** The ask leg of a pass, as for the bid leg. */
  lemma FillFrontsAskLeg(b: Book, bp: Price, ap: Price)
    requires CanPass(b, bp, ap)
    ensures var (r, t) := FillFronts(b, bp, ap);
      var id, q := b.asks[ap][0], t.askTrade.quantity;
      var o := b.orders[id];
      && (id in r.orders <==> q < o.remainingQuantity)
      && (id in r.orders ==> r.orders[id] == o.(remainingQuantity := o.remainingQuantity - q) && r.asks[ap] == b.asks[ap])
      && (id !in r.orders ==> r.asks[ap] == b.asks[ap][1..])
  {
    SoundSide(b, Buy);
    SoundSide(b, Sell);
    FrontFacts(b, Buy, bp);
    FrontFacts(b, Sell, ap);
    var q := Min(Front(b, Buy, bp).remainingQuantity, Front(b, Sell, ap).remainingQuantity);
    AskFrontAfterBidFill(b, bp, ap, q);
    var b1 := FillFront(b, Buy, bp, q);
    assert b1.asks == b.asks;
  }

  /** A pass leaves every order other than the two fronts untouched. */
  lemma FillFrontsOthers(b: Book, bp: Price, ap: Price)
    requires CanPass(b, bp, ap)
    ensures var r := FillFronts(b, bp, ap).0;
      forall id :: id in b.orders && id != b.bids[bp][0] && id != b.asks[ap][0] ==> id in r.orders && r.orders[id] == b.orders[id]
  {
    SoundSide(b, Buy);
    SoundSide(b, Sell);
    FrontFacts(b, Buy, bp);
    FrontFacts(b, Sell, ap);
    var q := Min(Front(b, Buy, bp).remainingQuantity, Front(b, Sell, ap).remainingQuantity);
    AskFrontAfterBidFill(b, bp, ap, q);
    FillFrontOthers(b, Buy, bp, q);
    FillFrontOthers(FillFront(b, Buy, bp, q), Sell, ap, q);
  }

  /** A fill leaves every order but the filled front untouched. */
  lemma FillFrontOthers(b: Book, s: Side, p: Price, q: Quantity)
    requires HasFront(b, s, p) && q <= Front(b, s, p).remainingQuantity
    ensures var r := FillFront(b, s, p, q);
      forall id :: id in b.orders && id != FrontId(b, s, p) ==> id in r.orders && r.orders[id] == b.orders[id]
  {
    FillFrontShape(b, s, p, q);
  }

  /**
   * The inner `while`: fronts are filled until the level at `bp` or the one
   * at `ap` is empty. Emptied levels keep their keys until the outer loop
   * erases them.
   */
  function DrainLevels(b: Book, bp: Price, ap: Price): (r: (Book, seq<Trade>))
    requires Inv(b) && bp in b.bids && ap in b.asks
    decreases |b.orders|
  {
    if b.bids[bp] == [] || b.asks[ap] == [] then (b, [])
    else
      FillFrontsPreservesInv(b, bp, ap);
      FillFrontsShrinks(b, bp, ap);
      var (b1, t) := FillFronts(b, bp, ap);
      var (b2, ts) := DrainLevels(b1, bp, ap);
      (b2, [t] + ts)
  }

  /**
   * The inner loop keeps the invariant and every level key, empties the
   * level at `bp` or the one at `ap`, touches no other level, retires at
   * least one order when both were non-empty, and trades only at `bp`
   * against `ap` with equal legs.
   */
  lemma {:induction false} DrainLevelsFacts(b: Book, bp: Price, ap: Price)
    requires Inv(b) && bp in b.bids && ap in b.asks
    ensures var r := DrainLevels(b, bp, ap);
      && Inv(r.0)
      && r.0.bids.Keys == b.bids.Keys && r.0.asks.Keys == b.asks.Keys
      && (r.0.bids[bp] == [] || r.0.asks[ap] == [])
      && (forall p :: p != bp ==> At(r.0.bids, p) == At(b.bids, p))
      && (forall p :: p != ap ==> At(r.0.asks, p) == At(b.asks, p))
      && |r.0.orders| <= |b.orders| && r.0.orders.Keys <= b.orders.Keys
      && (b.bids[bp] != [] && b.asks[ap] != [] ==> |r.0.orders| < |b.orders|)
      && (forall t :: t in r.1 ==> t.bidTrade.price == bp && t.askTrade.price == ap && t.bidTrade.quantity == t.askTrade.quantity)
    decreases |b.orders|
  {
    if b.bids[bp] != [] && b.asks[ap] != [] {
      FillFrontsPreservesInv(b, bp, ap);
      FillFrontsShrinks(b, bp, ap);
      FillFrontsFrame(b, bp, ap);
      var (b1, t) := FillFronts(b, bp, ap);
      DrainLevelsFacts(b1, bp, ap);
    }
  }

  // ---------------------------------------------------------------------------
  // The outer loop

  /** After the inner loop: an emptied best bid level and an emptied best ask level are erased. */
  function EraseEmpty(b: Book, bp: Price, ap: Price): (r: Book)
    ensures r.orders == b.orders && r.priceLevel == b.priceLevel
    ensures forall p :: At(r.bids, p) == At(b.bids, p) && At(r.asks, p) == At(b.asks, p)
    ensures r.bids.Keys == b.bids.Keys - (if At(b.bids, bp) == [] then {bp} else {})
    ensures r.asks.Keys == b.asks.Keys - (if At(b.asks, ap) == [] then {ap} else {})
  {
    b.(bids := if At(b.bids, bp) == [] then b.bids - {bp} else b.bids,
       asks := if At(b.asks, ap) == [] then b.asks - {ap} else b.asks)
  }

  /** Dropping empty levels keeps the invariant. */
  lemma EraseEmptyPreservesInv(b: Book, bp: Price, ap: Price)
    requires Inv(b)
    ensures Inv(EraseEmpty(b, bp, ap))
  {
    var r := EraseEmpty(b, bp, ap);
    EraseEmptySide(b, bp, ap, Buy);
    EraseEmptySide(b, bp, ap, Sell);
    forall p
      ensures ExactAt(r, p)
    {
      assert ExactAt(b, p);
      assert Count(r, p) == Count(b, p) && Avail(r, p) == Avail(b, p);
    }
    assert r.bids == r.SideLevels(Buy) && r.asks == r.SideLevels(Sell);
  }

  lemma EraseEmptySide(b: Book, bp: Price, ap: Price, t: Side)
    requires SideSound(b.SideLevels(t), b.orders, t) && Distinct(b.SideLevels(t))
    ensures SideSound(EraseEmpty(b, bp, ap).SideLevels(t), b.orders, t)
    ensures Distinct(EraseEmpty(b, bp, ap).SideLevels(t))
  {
    var m, m' := b.SideLevels(t), EraseEmpty(b, bp, ap).SideLevels(t);
    assert forall p :: p in m' ==> p in m && m'[p] == m[p];
  }

  /** Draining the two best levels and erasing the emptied ones leaves no empty level. */
  lemma PassNoEmpty(b: Book, bp: Price, ap: Price)
    requires Inv(b) && NoEmptyLevels(b) && bp in b.bids && ap in b.asks
    ensures var r := EraseEmpty(DrainLevels(b, bp, ap).0, bp, ap);
      Inv(r) && NoEmptyLevels(r)
  {
    DrainLevelsFacts(b, bp, ap);
    var b1 := DrainLevels(b, bp, ap).0;
    EraseEmptyPreservesInv(b1, bp, ap);
    var b2 := EraseEmpty(b1, bp, ap);
    forall p | p in b2.bids ensures b2.bids[p] != [] {
      assert At(b2.bids, p) == At(b1.bids, p);
      if p != bp { assert At(b1.bids, p) == At(b.bids, p); }
    }
    forall p | p in b2.asks ensures b2.asks[p] != [] {
      assert At(b2.asks, p) == At(b1.asks, p);
      if p != ap { assert At(b1.asks, p) == At(b.asks, p); }
    }
  }

  /**
   * MatchOrder's outer loop: while both sides hold a level and the best bid
   * reaches the best ask, drain the two best levels and erase whichever
   * emptied.
   */
  function MatchingLoop(b: Book): (r: (Book, seq<Trade>))
    requires Inv(b) && NoEmptyLevels(b)
    ensures Inv(r.0) && NoEmptyLevels(r.0) && !Crossed(r.0)
    ensures r.0.orders.Keys <= b.orders.Keys
    ensures forall t :: t in r.1 ==> t.bidTrade.price >= t.askTrade.price && t.bidTrade.quantity == t.askTrade.quantity
    ensures !Crossed(b) ==> r == (b, [])
    decreases |b.orders|
  {
    if !Crossed(b) then (b, [])
    else
      var bp, ap := MaxKey(b.bids.Keys), MinKey(b.asks.Keys);
      DrainLevelsFacts(b, bp, ap);
      var (b1, ts) := DrainLevels(b, bp, ap);
      PassNoEmpty(b, bp, ap);
      var b2 := EraseEmpty(b1, bp, ap);
      var (b3, ts') := MatchingLoop(b2);
      (b3, ts + ts')
  }

  // ---------------------------------------------------------------------------
  // FillOrKill clean-up and the whole of MatchOrder

  /** The best level of a side: the highest bid, the lowest ask. */
  function BestPrice(b: Book, s: Side): (p: Price)
    requires b.SideLevels(s).Keys != {}
    ensures p in b.SideLevels(s)
    ensures s == Buy ==> forall x :: x in b.bids ==> x <= p
    ensures s == Sell ==> forall x :: x in b.asks ==> p <= x
  {
    if s == Buy then MaxKey(b.bids.Keys) else MinKey(b.asks.Keys)
  }

  /**
   * A FillOrKill order at the front of side `s`'s best level is cancelled;
   * any other front, or an empty side, leaves the book alone.
   */
  function KillFillOrKillFront(b: Book, s: Side): (r: Book)
    requires Inv(b) && NoEmptyLevels(b)
    ensures Inv(r) && NoEmptyLevels(r)
    ensures !Crossed(b) ==> !Crossed(r)
    ensures r.orders.Keys <= b.orders.Keys
    ensures b.SideLevels(s).Keys == {} ==> r == b
    ensures b.SideLevels(s).Keys != {} ==>
      var id := b.SideLevels(s)[BestPrice(b, s)][0];
      && id in b.orders
      && (b.orders[id].orderType == FillOrKillOrder ==> r == Cancel(b, id) && id !in r.orders)
      && (b.orders[id].orderType != FillOrKillOrder ==> r == b)
  {
    if b.SideLevels(s).Keys == {} then b
    else
      var p := BestPrice(b, s);
      SideFacts(b, s);
      FrontFacts(b, s, p);
      var id := b.SideLevels(s)[p][0];
      if b.orders[id].orderType == FillOrKillOrder then
        CancelPreservesInv(b, id);
        CancelKeepsUncrossed(b, id);
        Cancel(b, id)
      else b
  }

  /** MatchOrder: the matching loop, then the FillOrKill clean-up on the bid side and then the ask side. */
  function MatchOrderSpec(b: Book): (r: (Book, seq<Trade>))
    requires Inv(b) && NoEmptyLevels(b)
    ensures Inv(r.0) && NoEmptyLevels(r.0) && !Crossed(r.0)
    ensures r.0.orders.Keys <= b.orders.Keys
    ensures forall t :: t in r.1 ==> t.bidTrade.price >= t.askTrade.price && t.bidTrade.quantity == t.askTrade.quantity
  {
    var (b1, ts) := MatchingLoop(b);
    (KillFillOrKillFront(KillFillOrKillFront(b1, Buy), Sell), ts)
  }

  // ---------------------------------------------------------------------------
  // Where orders go: an order leaves the book during matching only by trading

  /** The ids of the orders that took part in the trades `ts`, on either leg. */
  function TradedIds(ts: seq<Trade>): (ids: set<OrderId>)
    ensures forall t :: t in ts ==> t.bidTrade.orderId in ids && t.askTrade.orderId in ids
    ensures forall id :: id in ids ==> exists t :: t in ts && (t.bidTrade.orderId == id || t.askTrade.orderId == id)
  {
    if ts == [] then {} else {ts[0].bidTrade.orderId, ts[0].askTrade.orderId} + TradedIds(ts[1..])
  }

  /**
   * `r` is `b` after matching that made the trades `ts`: no order came in,
   * every order still resting kept its id, type, side and initial quantity,
   * and every order that left took part in one of the trades.
   */
  ghost predicate Retires(b: Book, r: Book, ts: seq<Trade>) {
    && r.orders.Keys <= b.orders.Keys
    && (forall id :: id in r.orders ==> r.orders[id].SameIdentity(b.orders[id]))
    && b.orders.Keys - r.orders.Keys <= TradedIds(ts)
  }

  /** Two stretches of matching in a row are one stretch with both runs of trades. */
  lemma RetiresTrans(b: Book, c: Book, d: Book, ts: seq<Trade>, us: seq<Trade>)
    requires Retires(b, c, ts) && Retires(c, d, us)
    ensures Retires(b, d, ts + us)
  {
    forall id | id in b.orders.Keys - d.orders.Keys
      ensures id in TradedIds(ts + us)
    {
      var t :| t in ts + us && (t.bidTrade.orderId == id || t.askTrade.orderId == id) by {
        if id in c.orders {
          assert id in TradedIds(us);
        } else {
          assert id in TradedIds(ts);
        }
      }
    }
  }

  /** One pass retires at most its two fronts, both named in its trade, and keeps the identity of every order left. */
  lemma FillFrontsRetires(b: Book, bp: Price, ap: Price)
    requires Inv(b) && bp in b.bids && b.bids[bp] != [] && ap in b.asks && b.asks[ap] != []
    ensures Retires(b, FillFronts(b, bp, ap).0, [FillFronts(b, bp, ap).1])
  {
    FillFrontsShrinks(b, bp, ap);
    FillFrontsLegsRetire(b, bp, ap);
  }

  lemma FillFrontsLegsRetire(b: Book, bp: Price, ap: Price)
    requires CanPass(b, bp, ap) && FillFronts(b, bp, ap).0.orders.Keys <= b.orders.Keys
    ensures Retires(b, FillFronts(b, bp, ap).0, [FillFronts(b, bp, ap).1])
  {
    var (r, t) := FillFronts(b, bp, ap);
    FillFrontsQuantity(b, bp, ap);
    FillFrontsBidLeg(b, bp, ap);
    FillFrontsAskLeg(b, bp, ap);
    FillFrontsOthers(b, bp, ap);
    var bid, ask := b.bids[bp][0], b.asks[ap][0];
    assert bid in TradedIds([t]) && ask in TradedIds([t]);
    forall id | id in r.orders
      ensures r.orders[id].SameIdentity(b.orders[id])
    {
      if id != bid && id != ask {
        assert r.orders[id] == b.orders[id];
      }
    }
    forall id | id in b.orders && id !in r.orders
      ensures id in TradedIds([t])
    {
      assert id == bid || id == ask;
    }
  }

  /** The inner loop retires only orders that traded in it. */
  lemma {:induction false} DrainLevelsRetires(b: Book, bp: Price, ap: Price)
    requires Inv(b) && bp in b.bids && ap in b.asks
    ensures Retires(b, DrainLevels(b, bp, ap).0, DrainLevels(b, bp, ap).1)
    decreases |b.orders|
  {
    if b.bids[bp] != [] && b.asks[ap] != [] {
      FillFrontsPreservesInv(b, bp, ap);
      FillFrontsShrinks(b, bp, ap);
      FillFrontsRetires(b, bp, ap);
      var (b1, t) := FillFronts(b, bp, ap);
      DrainLevelsRetires(b1, bp, ap);
      var (b2, ts) := DrainLevels(b1, bp, ap);
      RetiresTrans(b, b1, b2, [t], ts);
    }
  }

  /** The outer loop retires only orders that traded in it. */
  lemma {:induction false} MatchingLoopRetires(b: Book)
    requires Inv(b) && NoEmptyLevels(b)
    ensures Retires(b, MatchingLoop(b).0, MatchingLoop(b).1)
    decreases |b.orders|
  {
    if Crossed(b) {
      var bp, ap := MaxKey(b.bids.Keys), MinKey(b.asks.Keys);
      DrainLevelsFacts(b, bp, ap);
      DrainLevelsRetires(b, bp, ap);
      var (b1, ts) := DrainLevels(b, bp, ap);
      PassNoEmpty(b, bp, ap);
      var b2 := EraseEmpty(b1, bp, ap);
      MatchingLoopRetires(b2);
      var (b3, ts') := MatchingLoop(b2);
      RetiresTrans(b, b2, b3, ts, ts');
    }
  }

  /** The FillOrKill clean-up removes at most one order, a FillOrKill one, and leaves every other order as it was. */
  lemma KillRemovesFillOrKill(b: Book, s: Side)
    requires Inv(b) && NoEmptyLevels(b)
    ensures var r := KillFillOrKillFront(b, s);
      && (forall id :: id in r.orders ==> r.orders[id] == b.orders[id])
      && (forall id :: id in b.orders && id !in r.orders ==> b.orders[id].orderType == FillOrKillOrder)
  {
  }

  /**
   * MatchOrder adds no order and keeps the identity of every order it
   * leaves; an order that leaves either traded or was a FillOrKill order.
   */
  lemma MatchOrderRetires(b: Book)
    requires Inv(b) && NoEmptyLevels(b)
    ensures var r := MatchOrderSpec(b);
      && r.0.orders.Keys <= b.orders.Keys
      && (forall id :: id in r.0.orders ==> r.0.orders[id].SameIdentity(b.orders[id]))
      && (forall id :: id in b.orders && id !in r.0.orders && b.orders[id].orderType != FillOrKillOrder ==> id in TradedIds(r.1))
  {
    MatchingLoopRetires(b);
    var (b1, ts) := MatchingLoop(b);
    KillRemovesFillOrKill(b1, Buy);
    var k := KillFillOrKillFront(b1, Buy);
    KillRemovesFillOrKill(k, Sell);
  }
}
