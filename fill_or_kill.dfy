/**
 * What AddOrder (src/orderBook.cpp) promises a FillOrKill order once the
 * pre-flight CanFullyFillOrder counts only the opposite side: an order the
 * check admits is filled in full by the matching that follows and rests
 * nowhere, and an order it refuses leaves the book alone.
 *
 * The proof follows the new order `x`, of side `s` and limit `L`, through
 * MatchOrder. Until it is filled, `x` is the only order at its level and that
 * level is its side's best. Every fill trades `x` against the front of an
 * opposite level within the limit, and takes the same quantity off `x` and
 * off the opposite side's quantity within the limit (its supply).
 */
module FillOrKill {
  import opened Common
  import opened Orders
  import opened BookState
  import opened BookOps
  import opened Matching
  import opened Admission

  // ---------------------------------------------------------------------------
  // Traded quantities and the supply within a limit

  /** The quantity the order `x` traded in `ts`, on whichever leg it appears. */
  function TradedQuantity(ts: seq<Trade>, x: OrderId): (q: nat)
    ensures x !in TradedIds(ts) ==> q == 0
  {
    if ts == [] then 0
    else
      (if ts[0].bidTrade.orderId == x then ts[0].bidTrade.quantity else 0)
      + (if ts[0].askTrade.orderId == x then ts[0].askTrade.quantity else 0)
      + TradedQuantity(ts[1..], x)
  }

  /** Two runs of trades in a row: what `x` traded adds up. */
  lemma {:induction false} TradedQuantityAppend(ts: seq<Trade>, us: seq<Trade>, x: OrderId)
    ensures TradedQuantity(ts + us, x) == TradedQuantity(ts, x) + TradedQuantity(us, x)
  {
    if ts == [] {
      assert ts + us == us;
    } else {
      assert (ts + us)[0] == ts[0];
      assert (ts + us)[1..] == ts[1..] + us;
      TradedQuantityAppend(ts[1..], us, x);
    }
  }

  /** The exact sum of the remaining quantities resting at the prices `ps` of the side `m`. */
  function SumLevels(orders: map<OrderId, Order>, m: Levels, ps: set<Price>): nat
    decreases |ps|
  {
    if ps == {} then 0
    else
      var p := MinKey(ps);
      Remaining(orders, At(m, p)) + SumLevels(orders, m, ps - {p})
  }

  /** Any price of the set can be taken out first. */
  lemma {:induction false} SumLevelsRemove(orders: map<OrderId, Order>, m: Levels, ps: set<Price>, x: Price)
    requires x in ps
    ensures SumLevels(orders, m, ps) == Remaining(orders, At(m, x)) + SumLevels(orders, m, ps - {x})
    decreases |ps|
  {
    var k := MinKey(ps);
    if x != k {
      SumLevelsRemove(orders, m, ps - {k}, x);
      var t := ps - {x};
      assert k in t;
      assert MinKey(t) == k by {
        var j := MinKey(t);
        assert j <= k && k <= j;
      }
      assert t - {k} == ps - {k} - {x};
    }
  }

  /**
   * Two sides that agree on what rests at every price of `ps2` sum alike,
   * when `ps1` has at most extra prices at which nothing rests.
   */
  lemma {:induction false} SumLevelsFrame(o1: map<OrderId, Order>, m1: Levels, o2: map<OrderId, Order>, m2: Levels, ps1: set<Price>, ps2: set<Price>)
    requires ps2 <= ps1
    requires forall p :: p in ps1 && p !in ps2 ==> Remaining(o1, At(m1, p)) == 0
    requires forall p :: p in ps2 ==> Remaining(o1, At(m1, p)) == Remaining(o2, At(m2, p))
    ensures SumLevels(o1, m1, ps1) == SumLevels(o2, m2, ps2)
    decreases |ps1|
  {
    if ps1 != {} {
      var k := MinKey(ps1);
      SumLevelsRemove(o1, m1, ps1, k);
      if k in ps2 {
        SumLevelsRemove(o2, m2, ps2, k);
        SumLevelsFrame(o1, m1, o2, m2, ps1 - {k}, ps2 - {k});
      } else {
        SumLevelsFrame(o1, m1, o2, m2, ps1 - {k}, ps2);
      }
    } else {
      assert ps2 == {};
    }
  }

  /** Aggregates that never exceed what rests at their price sum to no more than it. */
  lemma {:induction false} SumAvailableWithin(pl: map<Price, PriceLevelData>, orders: map<OrderId, Order>, m: Levels, ps: set<Price>)
    requires forall p :: p in ps ==> LevelAt(pl, p).availableQuantity <= Remaining(orders, At(m, p))
    ensures SumAvailable(pl, ps) <= SumLevels(orders, m, ps)
    decreases |ps|
  {
    if ps != {} {
      SumAvailableWithin(pl, orders, m, ps - {MinKey(ps)});
    }
  }

  /** A uint32 result never exceeds the exact non-negative value. */
  lemma Wrap32Below(x: nat)
    ensures Wrap32(x) <= x
  {
  }

  /** What rests on the side opposite to `s` at prices an order limited at `L` may trade at. */
  function Supply(b: Book, s: Side, L: Price): nat {
    SumLevels(b.orders, b.SideLevels(Opposite(s)), OppositeEligible(b, s, L))
  }

  // ---------------------------------------------------------------------------
  // The new order alone at its level

  /**
   * `x` is the only order at its level `L` on side `s` while it is indexed,
   * and that level holds nothing once it is not.
   */
  ghost predicate Lone(b: Book, x: OrderId, s: Side, L: Price) {
    && (x in b.orders ==>
          b.orders[x].side == s && b.orders[x].price == L && L in b.SideLevels(s) && b.SideLevels(s)[L] == [x])
    && (x !in b.orders ==> At(b.SideLevels(s), L) == [])
  }

  /** Every bid is below every ask, except possibly at the level `L` of side `s`. */
  ghost predicate Apart(b: Book, s: Side, L: Price) {
    forall p, a :: p in b.bids && a in b.asks && (if s == Buy then p != L else a != L) ==> p < a
  }

  /** The price of the bid level and of the ask level when `x`'s level `L` meets the opposite level `O`. */
  function BidAt(s: Side, L: Price, O: Price): Price {
    if s == Buy then L else O
  }

  function AskAt(s: Side, L: Price, O: Price): Price {
    if s == Buy then O else L
  }

  /** The level at `L` on side `s` and the opposite level at `O` both exist and are non-empty. */
  ghost predicate Meet(b: Book, s: Side, L: Price, O: Price) {
    && L in b.SideLevels(s) && b.SideLevels(s)[L] != []
    && O in b.SideLevels(Opposite(s)) && b.SideLevels(Opposite(s))[O] != []
  }

  /** Two such levels can be filled against each other; their fronts are two indexed orders of opposite sides. */
  lemma MeetFronts(b: Book, s: Side, L: Price, O: Price)
    requires Inv(b) && Meet(b, s, L, O)
    ensures CanPass(b, BidAt(s, L, O), AskAt(s, L, O))
    ensures var x, y := b.SideLevels(s)[L][0], b.SideLevels(Opposite(s))[O][0];
      && x in b.orders && y in b.orders && x != y
      && b.orders[x].side == s && b.orders[x].price == L
      && b.orders[y].side == Opposite(s) && b.orders[y].price == O
  {
    SideFacts(b, s);
    SideFacts(b, Opposite(s));
    FrontFacts(b, s, L);
    FrontFacts(b, Opposite(s), O);
  }

  /**
   * One fill of two fronts, seen from side `s`: the front `x` of the level at
   * `L` trades the smaller of the two remaining quantities, and stays
   * indexed, unmoved, exactly when some of it remains; otherwise it is
   * popped.
   */
  lemma FillOwnLeg(b: Book, s: Side, L: Price, O: Price)
    requires Inv(b) && Meet(b, s, L, O) && CanPass(b, BidAt(s, L, O), AskAt(s, L, O))
    ensures var (r, t) := FillFronts(b, BidAt(s, L, O), AskAt(s, L, O));
      var x, y := b.SideLevels(s)[L][0], b.SideLevels(Opposite(s))[O][0];
      var q := t.bidTrade.quantity;
      && x in b.orders && y in b.orders && x != y
      && TradedQuantity([t], x) == q
      && q == Min(b.orders[x].remainingQuantity, b.orders[y].remainingQuantity)
      && (x in r.orders <==> q < b.orders[x].remainingQuantity)
      && (x in r.orders ==> r.orders[x] == b.orders[x].(remainingQuantity := b.orders[x].remainingQuantity - q) && r.SideLevels(s)[L] == b.SideLevels(s)[L])
      && (x !in r.orders ==> r.SideLevels(s)[L] == b.SideLevels(s)[L][1..])
  {
    MeetFronts(b, s, L, O);
    if s == Buy {
      OwnLegBuy(b, L, O);
    } else {
      OwnLegSell(b, L, O);
    }
  }

  lemma OwnLegBuy(b: Book, L: Price, O: Price)
    requires CanPass(b, L, O) && b.orders[b.bids[L][0]].side == Buy && b.orders[b.asks[O][0]].side == Sell
    ensures var (r, t) := FillFronts(b, L, O);
      var x, y := b.bids[L][0], b.asks[O][0];
      var q := t.bidTrade.quantity;
      && TradedQuantity([t], x) == q
      && q == Min(b.orders[x].remainingQuantity, b.orders[y].remainingQuantity)
      && (x in r.orders <==> q < b.orders[x].remainingQuantity)
      && (x in r.orders ==> r.orders[x] == b.orders[x].(remainingQuantity := b.orders[x].remainingQuantity - q) && r.bids[L] == b.bids[L])
      && (x !in r.orders ==> r.bids[L] == b.bids[L][1..])
  {
    FillFrontsQuantity(b, L, O);
    FillFrontsBidLeg(b, L, O);
    var (r, t) := FillFronts(b, L, O);
    assert t.bidTrade.orderId != t.askTrade.orderId;
    assert [t][1..] == [];
  }

  lemma OwnLegSell(b: Book, L: Price, O: Price)
    requires CanPass(b, O, L) && b.orders[b.asks[L][0]].side == Sell && b.orders[b.bids[O][0]].side == Buy
    ensures var (r, t) := FillFronts(b, O, L);
      var x, y := b.asks[L][0], b.bids[O][0];
      var q := t.bidTrade.quantity;
      && TradedQuantity([t], x) == q
      && q == Min(b.orders[x].remainingQuantity, b.orders[y].remainingQuantity)
      && (x in r.orders <==> q < b.orders[x].remainingQuantity)
      && (x in r.orders ==> r.orders[x] == b.orders[x].(remainingQuantity := b.orders[x].remainingQuantity - q) && r.asks[L] == b.asks[L])
      && (x !in r.orders ==> r.asks[L] == b.asks[L][1..])
  {
    FillFrontsQuantity(b, O, L);
    FillFrontsAskLeg(b, O, L);
    var (r, t) := FillFronts(b, O, L);
    assert t.bidTrade.orderId != t.askTrade.orderId;
    assert [t][1..] == [];
  }

  /** The same fill seen from the opposite level at `O`: its front `y` loses the traded quantity, or is popped. */
  lemma FillOppLeg(b: Book, s: Side, L: Price, O: Price)
    requires Inv(b) && Meet(b, s, L, O) && CanPass(b, BidAt(s, L, O), AskAt(s, L, O))
    ensures var (r, t) := FillFronts(b, BidAt(s, L, O), AskAt(s, L, O));
      var y := b.SideLevels(Opposite(s))[O][0];
      var q := t.bidTrade.quantity;
      && y in b.orders && q <= b.orders[y].remainingQuantity
      && (y in r.orders ==> r.orders[y].remainingQuantity + q == b.orders[y].remainingQuantity && r.SideLevels(Opposite(s))[O] == b.SideLevels(Opposite(s))[O])
      && (y !in r.orders ==> q == b.orders[y].remainingQuantity && r.SideLevels(Opposite(s))[O] == b.SideLevels(Opposite(s))[O][1..])
  {
    MeetFronts(b, s, L, O);
    var bp, ap := BidAt(s, L, O), AskAt(s, L, O);
    FillFrontsQuantity(b, bp, ap);
    FillFrontsShrinks(b, bp, ap);
    if s == Buy {
      FillFrontsAskLeg(b, bp, ap);
    } else {
      FillFrontsBidLeg(b, bp, ap);
    }
  }

  /** The same fill changes no other order and no other opposite level, and keeps every level key. */
  lemma FillElsewhere(b: Book, s: Side, L: Price, O: Price)
    requires Inv(b) && Meet(b, s, L, O) && CanPass(b, BidAt(s, L, O), AskAt(s, L, O))
    ensures var r := FillFronts(b, BidAt(s, L, O), AskAt(s, L, O)).0;
      var x, y := b.SideLevels(s)[L][0], b.SideLevels(Opposite(s))[O][0];
      && r.bids.Keys == b.bids.Keys && r.asks.Keys == b.asks.Keys && r.orders.Keys <= b.orders.Keys
      && (forall p :: p != O ==> At(r.SideLevels(Opposite(s)), p) == At(b.SideLevels(Opposite(s)), p))
      && (forall id :: id in b.orders && id != x && id != y ==> id in r.orders && r.orders[id] == b.orders[id])
  {
    var bp, ap := BidAt(s, L, O), AskAt(s, L, O);
    FillFrontsShrinks(b, bp, ap);
    FillFrontsFrame(b, bp, ap);
    FillFrontsOthers(b, bp, ap);
  }

  /**
   * What rests at a level whose front was filled by `q`: the front lost `q`
   * and kept its place, or was filled and popped. The level's sum drops by
   * exactly `q`.
   */
  lemma FrontLevelAfterFill(o1: map<OrderId, Order>, o2: map<OrderId, Order>, lv: seq<OrderId>, lv2: seq<OrderId>, q: nat, x: OrderId)
    requires lv != [] && Unique(lv) && x !in lv && lv[0] in o1
    requires forall id :: id in lv ==> id in o1
    requires forall id :: id in o1 && id != lv[0] && id != x ==> id in o2 && o2[id] == o1[id]
    requires || (lv[0] in o2 && o2[lv[0]].remainingQuantity + q == o1[lv[0]].remainingQuantity && lv2 == lv)
             || (lv[0] !in o2 && q == o1[lv[0]].remainingQuantity && lv2 == lv[1..])
    ensures Remaining(o2, lv2) + q == Remaining(o1, lv)
  {
    forall id | id in lv[1..] ensures RemainingOf(o1, id) == RemainingOf(o2, id) {
      var i :| 0 <= i < |lv[1..]| && lv[1..][i] == id;
      assert lv[i + 1] == id;
    }
    RemainingFrame(o1, o2, lv[1..]);
  }

  /** Levels other than `O` that kept their ids, none of them `x` or `y`, keep their sums when only `x` and `y` changed. */
  lemma OtherLevelsKeep(o1: map<OrderId, Order>, m1: Levels, o2: map<OrderId, Order>, m2: Levels, ps: set<Price>, O: Price, x: OrderId, y: OrderId)
    requires forall p :: p != O ==> At(m2, p) == At(m1, p) && x !in At(m1, p) && y !in At(m1, p)
    requires forall id :: id in o1 && id != x && id != y ==> id in o2 && o2[id] == o1[id]
    requires o2.Keys <= o1.Keys
    ensures SumLevels(o2, m2, ps - {O}) == SumLevels(o1, m1, ps - {O})
  {
    forall p | p in ps - {O}
      ensures Remaining(o2, At(m2, p)) == Remaining(o1, At(m1, p))
    {
      forall id | id in At(m1, p) ensures RemainingOf(o2, id) == RemainingOf(o1, id) {
        assert id != x && id != y;
      }
      RemainingFrame(o2, o1, At(m1, p));
    }
    SumLevelsFrame(o2, m2, o1, m1, ps - {O}, ps - {O});
  }

  /** A side whose level at `O` lost `q` at its front, and which changed nowhere else, sums `q` less over prices including `O`. */
  lemma SumAfterFill(o1: map<OrderId, Order>, m1: Levels, o2: map<OrderId, Order>, m2: Levels, ps: set<Price>, O: Price, x: OrderId, q: nat)
    requires O in ps && O in m1 && O in m2 && m1[O] != []
    requires forall p :: p != O ==> At(m2, p) == At(m1, p) && x !in At(m1, p) && m1[O][0] !in At(m1, p)
    requires Unique(m1[O]) && x !in m1[O] && forall id :: id in m1[O] ==> id in o1
    requires forall id :: id in o1 && id != x && id != m1[O][0] ==> id in o2 && o2[id] == o1[id]
    requires o2.Keys <= o1.Keys
    requires || (m1[O][0] in o2 && o2[m1[O][0]].remainingQuantity + q == o1[m1[O][0]].remainingQuantity && m2[O] == m1[O])
             || (m1[O][0] !in o2 && q == o1[m1[O][0]].remainingQuantity && m2[O] == m1[O][1..])
    ensures SumLevels(o2, m2, ps) + q == SumLevels(o1, m1, ps)
  {
    SumLevelsRemove(o1, m1, ps, O);
    SumLevelsRemove(o2, m2, ps, O);
    OtherLevelsKeep(o1, m1, o2, m2, ps, O, x, m1[O][0]);
    FrontLevelAfterFill(o1, o2, m1[O], m2[O], q, x);
  }

  /** The eligible opposite prices depend only on the opposite side's level keys. */
  lemma SameEligible(b: Book, r: Book, s: Side, L: Price)
    requires r.bids.Keys == b.bids.Keys && r.asks.Keys == b.asks.Keys
    ensures OppositeEligible(r, s, L) == OppositeEligible(b, s, L)
  {
    assert r.SideLevels(Opposite(s)).Keys == b.SideLevels(Opposite(s)).Keys;
  }

  /** Where the order `x` of side `s` and the front of the opposite level at `O` are not listed. */
  lemma OppositeLevelFacts(b: Book, x: OrderId, s: Side, O: Price)
    requires Inv(b) && x in b.orders && b.orders[x].side == s
    requires O in b.SideLevels(Opposite(s)) && b.SideLevels(Opposite(s))[O] != []
    ensures var opp := b.SideLevels(Opposite(s));
      && (forall p :: p != O ==> x !in At(opp, p) && opp[O][0] !in At(opp, p))
      && Unique(opp[O]) && x !in opp[O] && (forall id :: id in opp[O] ==> id in b.orders)
  {
    var opp := b.SideLevels(Opposite(s));
    SideFacts(b, Opposite(s));
    FrontFacts(b, Opposite(s), O);
    var y := opp[O][0];
    forall p | p != O ensures x !in At(opp, p) && y !in At(opp, p) {
      NotElsewhere(b, x, Opposite(s), p);
      NotElsewhere(b, y, Opposite(s), p);
    }
    NotElsewhere(b, x, Opposite(s), O);
    forall id | id in opp[O] ensures id in b.orders {
      var i :| 0 <= i < |opp[O]| && opp[O][i] == id;
    }
  }

  /**
   * One fill while `x` is alone at its level `L` and meets the opposite level
   * at `O`: `x` stays alone, and the quantity it trades comes off its
   * remaining quantity. If it is still indexed, some of it remains.
   */
  lemma FillKeepsLone(b: Book, x: OrderId, s: Side, L: Price, O: Price)
    requires Inv(b) && Lone(b, x, s, L) && x in b.orders
    requires O in b.SideLevels(Opposite(s)) && b.SideLevels(Opposite(s))[O] != []
    ensures Meet(b, s, L, O) && CanPass(b, BidAt(s, L, O), AskAt(s, L, O))
    ensures var (r, t) := FillFronts(b, BidAt(s, L, O), AskAt(s, L, O));
      && Lone(r, x, s, L)
      && TradedQuantity([t], x) + RemainingOf(r.orders, x) == RemainingOf(b.orders, x)
      && (x in r.orders ==> RemainingOf(r.orders, x) > 0)
  {
    MeetFronts(b, s, L, O);
    FillOwnLeg(b, s, L, O);
    FillElsewhere(b, s, L, O);
  }

  /** The same fill, within `x`'s limit, takes what `x` trades off the supply within that limit. */
  lemma FillTakesSupply(b: Book, x: OrderId, s: Side, L: Price, O: Price)
    requires Inv(b) && Lone(b, x, s, L) && x in b.orders
    requires O in b.SideLevels(Opposite(s)) && b.SideLevels(Opposite(s))[O] != [] && EligiblePrice(s, L, O)
    ensures Meet(b, s, L, O) && CanPass(b, BidAt(s, L, O), AskAt(s, L, O))
    ensures var (r, t) := FillFronts(b, BidAt(s, L, O), AskAt(s, L, O));
      Supply(r, s, L) + TradedQuantity([t], x) == Supply(b, s, L)
  {
    MeetFronts(b, s, L, O);
    FillOwnLeg(b, s, L, O);
    FillOppLeg(b, s, L, O);
    FillElsewhere(b, s, L, O);
    var (r, t) := FillFronts(b, BidAt(s, L, O), AskAt(s, L, O));
    var opp, opp' := b.SideLevels(Opposite(s)), r.SideLevels(Opposite(s));
    SameEligible(b, r, s, L);
    OppositeLevelFacts(b, x, s, O);
    SumAfterFill(b.orders, opp, r.orders, opp', OppositeEligible(b, s, L), O, x, t.bidTrade.quantity);
  }

  // ---------------------------------------------------------------------------
  // The inner and the outer matching loop

  /**
   * The inner loop at `x`'s level `L` and the opposite level `O` within its
   * limit: `x` stays alone, and what it trades comes off its remaining
   * quantity and off the supply. If `x` is left indexed with nothing
   * remaining, the loop made no fill.
   */
  lemma {:induction false} DrainLone(b: Book, x: OrderId, s: Side, L: Price, O: Price)
    requires Inv(b) && Lone(b, x, s, L) && L in b.SideLevels(s)
    requires O in b.SideLevels(Opposite(s)) && EligiblePrice(s, L, O)
    ensures BidAt(s, L, O) in b.bids && AskAt(s, L, O) in b.asks
    ensures var (r, ts) := DrainLevels(b, BidAt(s, L, O), AskAt(s, L, O));
      && Lone(r, x, s, L)
      && TradedQuantity(ts, x) + RemainingOf(r.orders, x) == RemainingOf(b.orders, x)
      && Supply(r, s, L) + TradedQuantity(ts, x) == Supply(b, s, L)
      && (x in r.orders && RemainingOf(r.orders, x) == 0 ==> !Meet(b, s, L, O))
    decreases |b.orders|
  {
    var bp, ap := BidAt(s, L, O), AskAt(s, L, O);
    if Meet(b, s, L, O) {
      FillKeepsLone(b, x, s, L, O);
      FillTakesSupply(b, x, s, L, O);
      FillFrontsPreservesInv(b, bp, ap);
      FillFrontsShrinks(b, bp, ap);
      var (b1, t) := FillFronts(b, bp, ap);
      DrainLone(b1, x, s, L, O);
      DrainLevelsFacts(b1, bp, ap);
      var (r, ts) := DrainLevels(b1, bp, ap);
      assert DrainLevels(b, bp, ap) == (r, [t] + ts);
      TradedQuantityAppend([t], ts, x);
      assert x in r.orders && RemainingOf(r.orders, x) == 0 ==> r == b1;
    }
  }

  /**
   * A crossed book in which `x` is alone at its level `L` and every other bid
   * is below every ask: `x` is indexed, `L` is its side's best price, and the
   * opposite side's best price is within `x`'s limit.
   */
  lemma CrossedAtLone(b: Book, x: OrderId, s: Side, L: Price)
    requires NoEmptyLevels(b) && Lone(b, x, s, L) && Apart(b, s, L) && Crossed(b)
    ensures x in b.orders
    ensures s == Buy ==> MaxKey(b.bids.Keys) == L && MinKey(b.asks.Keys) <= L
    ensures s == Sell ==> MinKey(b.asks.Keys) == L && MaxKey(b.bids.Keys) >= L
  {
    var hb, la := MaxKey(b.bids.Keys), MinKey(b.asks.Keys);
    assert hb in b.bids && la in b.asks && hb >= la;
    if s == Buy {
      assert At(b.bids, L) != [];
    } else {
      assert At(b.asks, L) != [];
    }
  }

  /** Erasing emptied levels keeps `x` alone at its level. */
  lemma EraseKeepsLone(b: Book, x: OrderId, s: Side, L: Price, bp: Price, ap: Price)
    requires Lone(b, x, s, L)
    ensures Lone(EraseEmpty(b, bp, ap), x, s, L)
  {
    var e := EraseEmpty(b, bp, ap);
    if x in b.orders {
      assert At(b.SideLevels(s), L) == [x];
      assert L in e.SideLevels(s);
    }
  }

  /** Erasing emptied levels keeps the supply: nothing rested there. */
  lemma EraseKeepsSupply(b: Book, s: Side, L: Price, bp: Price, ap: Price)
    ensures Supply(EraseEmpty(b, bp, ap), s, L) == Supply(b, s, L)
  {
    var e := EraseEmpty(b, bp, ap);
    var m1, m2 := b.SideLevels(Opposite(s)), e.SideLevels(Opposite(s));
    var E1, E2 := OppositeEligible(b, s, L), OppositeEligible(e, s, L);
    forall p | p in E1 && p !in E2 ensures Remaining(b.orders, At(m1, p)) == 0 {
      assert At(m1, p) == [];
    }
    SumLevelsFrame(b.orders, m1, e.orders, m2, E1, E2);
  }

  /**
   * One pass of the outer loop on a crossed book in which `x` is alone at
   * its level `L` and every other bid is below every ask: the pass keeps all
   * of that, retires at least one order, and what `x` trades comes off its
   * remaining quantity and off the supply; `x`, if still indexed, has some
   * quantity left.
   */
  lemma PassLone(b: Book, x: OrderId, s: Side, L: Price)
    requires Inv(b) && NoEmptyLevels(b) && Lone(b, x, s, L) && Apart(b, s, L) && Crossed(b)
    ensures var bp, ap := MaxKey(b.bids.Keys), MinKey(b.asks.Keys);
      var (b1, ts) := DrainLevels(b, bp, ap);
      var e := EraseEmpty(b1, bp, ap);
      && Inv(e) && NoEmptyLevels(e) && Lone(e, x, s, L) && Apart(e, s, L)
      && |e.orders| < |b.orders| && e.bids.Keys <= b.bids.Keys && e.asks.Keys <= b.asks.Keys
      && TradedQuantity(ts, x) + RemainingOf(e.orders, x) == RemainingOf(b.orders, x)
      && Supply(e, s, L) + TradedQuantity(ts, x) == Supply(b, s, L)
      && (x in e.orders ==> RemainingOf(e.orders, x) > 0)
  {
    CrossedAtLone(b, x, s, L);
    var bp, ap := MaxKey(b.bids.Keys), MinKey(b.asks.Keys);
    var O := if s == Buy then ap else bp;
    assert bp == BidAt(s, L, O) && ap == AskAt(s, L, O);
    DrainLevelsFacts(b, bp, ap);
    DrainLone(b, x, s, L, O);
    var (b1, ts) := DrainLevels(b, bp, ap);
    PassNoEmpty(b, bp, ap);
    EraseEmptyPreservesInv(b1, bp, ap);
    EraseKeepsLone(b1, x, s, L, bp, ap);
    EraseKeepsSupply(b1, s, L, bp, ap);
    assert Meet(b, s, L, O);
  }

  /**
   * The outer loop on a book in which `x` is alone at its level `L` and every
   * other bid is below every ask: `x` stays alone, and what it trades comes
   * off its remaining quantity and off the supply within its limit. If `x`
   * is left indexed with nothing remaining, the book was not crossed.
   */
  lemma {:induction false} LoopLone(b: Book, x: OrderId, s: Side, L: Price)
    requires Inv(b) && NoEmptyLevels(b) && Lone(b, x, s, L) && Apart(b, s, L)
    ensures var (r, ts) := MatchingLoop(b);
      && Lone(r, x, s, L) && r.bids.Keys <= b.bids.Keys && r.asks.Keys <= b.asks.Keys
      && TradedQuantity(ts, x) + RemainingOf(r.orders, x) == RemainingOf(b.orders, x)
      && Supply(r, s, L) + TradedQuantity(ts, x) == Supply(b, s, L)
      && (x in r.orders && RemainingOf(r.orders, x) == 0 ==> !Crossed(b))
    decreases |b.orders|
  {
    if Crossed(b) {
      PassLone(b, x, s, L);
      var bp, ap := MaxKey(b.bids.Keys), MinKey(b.asks.Keys);
      var (b1, ts) := DrainLevels(b, bp, ap);
      var e := EraseEmpty(b1, bp, ap);
      LoopLone(e, x, s, L);
      var (r, us) := MatchingLoop(e);
      assert MatchingLoop(b) == (r, ts + us);
      TradedQuantityAppend(ts, us, x);
      assert x in r.orders && RemainingOf(r.orders, x) == 0 ==> r == e;
    }
  }

  /** Once matching stops with `x` still resting, no opposite level is within its limit: the supply is spent. */
  lemma UncrossedNoSupply(b: Book, x: OrderId, s: Side, L: Price)
    requires !Crossed(b) && Lone(b, x, s, L)
    ensures x in b.orders ==> OppositeEligible(b, s, L) == {} && Supply(b, s, L) == 0
  {
    if x in b.orders {
      forall p | p in b.SideLevels(Opposite(s)) ensures !EligiblePrice(s, L, p) {
        var hb, la := MaxKey(b.bids.Keys), MinKey(b.asks.Keys);
        assert hb < la;
      }
      assert OppositeEligible(b, s, L) == {};
    }
  }

  // ---------------------------------------------------------------------------
  // AddOrder of a FillOrKill order

  /** In a book that is not crossed, no level within `L` on the side opposite to `s` has a level of side `s` at its price, nor at `L`. */
  lemma UncrossedEligible(b: Book, s: Side, L: Price)
    requires !Crossed(b)
    ensures forall p :: p in OppositeEligible(b, s, L) ==> p !in b.SideLevels(s)
    ensures OppositeEligible(b, s, L) != {} ==> L !in b.SideLevels(s)
  {
    forall p | p in OppositeEligible(b, s, L) ensures p !in b.SideLevels(s) && L !in b.SideLevels(s) {
      if s == Buy && b.bids.Keys != {} {
        assert MaxKey(b.bids.Keys) < MinKey(b.asks.Keys) <= p;
      }
      if s == Sell && b.asks.Keys != {} {
        assert p <= MaxKey(b.bids.Keys) < MinKey(b.asks.Keys);
      }
    }
  }

  /** In a valid book that is not crossed, the aggregates within the limit never exceed the supply. */
  lemma AggregatesWithinSupply(b: Book, s: Side, L: Price)
    requires Inv(b) && !Crossed(b)
    ensures SumAvailable(b.priceLevel, OppositeEligible(b, s, L)) <= Supply(b, s, L)
  {
    var E, opp := OppositeEligible(b, s, L), b.SideLevels(Opposite(s));
    UncrossedEligible(b, s, L);
    forall p | p in E ensures LevelAt(b.priceLevel, p).availableQuantity <= Remaining(b.orders, At(opp, p)) {
      AggregateAt(b, p);
      assert At(b.SideLevels(s), p) == [];
      assert Avail(b, p) == Remaining(b.orders, At(opp, p));
      Wrap32Below(Avail(b, p));
    }
    SumAvailableWithin(b.priceLevel, b.orders, opp, E);
  }

  /**
   * Inserting a fresh order `o` at a price where its side has no level, in a
   * valid book that is not crossed: `o` is alone at its level, every other
   * bid is below every ask, and the supply within its limit is unchanged.
   */
  lemma InsertLone(b: Book, o: Order)
    requires Inv(b) && !Crossed(b) && o.orderId !in b.orders && o.price !in b.SideLevels(o.side)
    ensures var b1 := Insert(b, o);
      && Lone(b1, o.orderId, o.side, o.price) && Apart(b1, o.side, o.price)
      && Supply(b1, o.side, o.price) == Supply(b, o.side, o.price)
      && RemainingOf(b1.orders, o.orderId) == o.remainingQuantity
  {
    var b1, x, s, L := Insert(b, o), o.orderId, o.side, o.price;
    assert At(b.SideLevels(s), L) + [x] == [x];
    forall p, a | p in b1.bids && a in b1.asks && (if s == Buy then p != L else a != L) ensures p < a {
      assert p in b.bids && a in b.asks;
      var hb, la := MaxKey(b.bids.Keys), MinKey(b.asks.Keys);
      assert hb < la;
    }
    var E, opp := OppositeEligible(b, s, L), b.SideLevels(Opposite(s));
    assert OppositeEligible(b1, s, L) == E;
    forall p | p in E ensures Remaining(b1.orders, At(opp, p)) == Remaining(b.orders, At(opp, p)) {
      NotListed(b, x, Opposite(s), p);
      RemainingFrameOne(b1.orders, b.orders, x, At(opp, p));
    }
    SumLevelsFrame(b1.orders, opp, b.orders, opp, E, E);
  }

  /**
   * A fresh order `o` that the corrected check admits, inserted into a valid
   * book that is not crossed: the book crosses, `o` is alone at its level,
   * every other bid is below every ask, and the supply within its limit
   * covers its whole quantity.
   */
  lemma AdmittedSetsUp(b: Book, o: Order)
    requires Inv(b) && NoEmptyLevels(b) && !Crossed(b) && o.Unfilled()
    requires o.orderId !in b.orders && CanFill(b, o.side, o.price, o.initialQuantity)
    ensures var b1, x, s, L := Insert(b, o), o.orderId, o.side, o.price;
      && Inv(b1) && NoEmptyLevels(b1) && Crossed(b1)
      && Lone(b1, x, s, L) && Apart(b1, s, L)
      && Supply(b1, s, L) >= RemainingOf(b1.orders, x) == o.initialQuantity
  {
    var s, L := o.side, o.price;
    UncrossedEligible(b, s, L);
    AggregatesWithinSupply(b, s, L);
    InsertPreservesInv(b, o);
    InsertLone(b, o);
    var b1 := Insert(b, o);
    var O :| O in OppositeEligible(b, s, L);
    assert L in b1.SideLevels(s) && O in b1.SideLevels(Opposite(s));
    var hb, la := MaxKey(b1.bids.Keys), MinKey(b1.asks.Keys);
    assert la <= O <= hb || la <= L <= hb;
  }

  /**
   * Matching a crossed book in which `x` is alone at its level, every other
   * bid is below every ask, and the supply within its limit covers what
   * remains of it: `x` trades all of that and leaves the book.
   */
  lemma LoopFillsLone(b: Book, x: OrderId, s: Side, L: Price)
    requires Inv(b) && NoEmptyLevels(b) && Crossed(b) && Lone(b, x, s, L) && Apart(b, s, L)
    requires Supply(b, s, L) >= RemainingOf(b.orders, x)
    ensures x !in MatchingLoop(b).0.orders
    ensures TradedQuantity(MatchingLoop(b).1, x) == RemainingOf(b.orders, x)
  {
    LoopLone(b, x, s, L);
    var (r, ts) := MatchingLoop(b);
    UncrossedNoSupply(r, x, s, L);
  }

  /**
   * AddOrder of a FillOrKill order is all or nothing. Refused, it leaves the
   * book as it was and trades nothing. Admitted, it trades its whole
   * quantity and rests nowhere afterwards.
   */
  lemma FillOrKillAllOrNothing(b: Book, o: Order)
    requires Inv(b) && NoEmptyLevels(b) && !Crossed(b) && o.Unfilled() && o.orderType == FillOrKillOrder
    ensures Admit(b, o) == None ==> AddSpec(b, o) == (b, [])
    ensures Admit(b, o).Some? ==>
      o.orderId !in AddSpec(b, o).0.orders && TradedQuantity(AddSpec(b, o).1, o.orderId) == o.initialQuantity
  {
    if Admit(b, o).Some? {
      assert Admit(b, o).value == o && o.orderId !in b.orders;
      AdmittedSetsUp(b, o);
      var b1 := Insert(b, o);
      LoopFillsLone(b1, o.orderId, o.side, o.price);
      assert AddSpec(b, o) == MatchOrderSpec(b1);
    }
  }
}
