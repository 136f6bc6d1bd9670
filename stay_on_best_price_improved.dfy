/** The stay-on-best-price strategy with a volume gate
    (strategies/stay_on_best_price_improved_strategy/
    stay_on_best_price_improved_strategy.cpp): a side's lot stands at the
    best price only while the book shows at least a configured volume there;
    otherwise the strategy's first order on that side is deleted and nothing
    is re-added. */
module StayOnBestPriceImproved {
  import opened CommonEnums
  import opened StrategyActions
  import opened OrdersSnapshot
  import Basic = StayOnBestPrice

  const DefaultMinVolumeToStayOnBest: int := 10

  datatype Config = Config(minVolumeToStayOnBest: Option<int>)

  /** `can_stay_on_best`. */
  predicate CanStayOnBest(bestVolume: int, minVolume: int) {
    bestVolume >= minVolume
  }

  /** `add_limit_order_if(dir, price, amount, condition)`: the calls it makes. */
  function AddLimitOrderIf(dir: Dir, price: Price, amount: int, condition: bool): (r: seq<Action>)
    ensures r == [] || r == [AddLimitOrder(dir, price, amount)]
    ensures r != [] <==> condition
  {
    if condition then [AddLimitOrder(dir, price, amount)] else []
  }

  /** The calls made for one side. */
  function Decide(dir: Dir, orders: seq<OrderSnapshot>, bestPrice: Price, canStay: bool): seq<Action>
  {
    if CountActive(orders) == 0 then AddLimitOrderIf(dir, bestPrice, Basic.OrderAmount, canStay)
    else
      CountActiveBound(orders);
      var first := orders[0].order;
      if first.price != bestPrice || !canStay then
        [DeleteOrder(first)] + AddLimitOrderIf(dir, bestPrice, Basic.OrderAmount, canStay)
      else []
  }

  /** The calls made for the side `dir` of `book`. */
  function DecideSide(byDir: seq<seq<OrderSnapshot>>, book: BookInfo, minVolume: int, dir: Dir): seq<Action>
    requires |byDir| == 2 && IsSide(dir)
  {
    Decide(dir, byDir[dir], BestPrice(book, dir), CanStayOnBest(BestVolume(book, dir), minVolume))
  }

  /** The calls made for the sides `dirs`, in that order. */
  function DecideAll(byDir: seq<seq<OrderSnapshot>>, book: BookInfo, minVolume: int, dirs: seq<Dir>): seq<Action>
    requires |byDir| == 2 && forall i :: 0 <= i < |dirs| ==> IsSide(dirs[i])
  {
    if dirs == [] then []
    else DecideAll(byDir, book, minVolume, dirs[..|dirs| - 1]) + DecideSide(byDir, book, minVolume, dirs[|dirs| - 1])
  }

  class UserStrategy {
    const minVolumeToStayOnBest: int

    constructor (config: Config)
      ensures minVolumeToStayOnBest == ConfigValue(config.minVolumeToStayOnBest, DefaultMinVolumeToStayOnBest)
    {
      minVolumeToStayOnBest := ConfigValue(config.minVolumeToStayOnBest, DefaultMinVolumeToStayOnBest);
    }

    /** `trading_book_update`; returns the calls made, BID side first. */
    method TradingBookUpdate(ourOrders: SecurityOrdersSnapshot, book: BookInfo) returns (actions: seq<Action>)
      requires ourOrders.Valid()
      ensures actions == DecideSide(ourOrders.ordersByDir[..], book, minVolumeToStayOnBest, BID)
                       + DecideSide(ourOrders.ordersByDir[..], book, minVolumeToStayOnBest, ASK)
    {
      var dirs := [BID, ASK];
      actions := [];
      for k := 0 to |dirs|
        invariant actions == DecideAll(ourOrders.ordersByDir[..], book, minVolumeToStayOnBest, dirs[..k])
      {
        assert dirs[..k + 1][..k] == dirs[..k];
        var calls := UpdateSide(ourOrders, book, dirs[k]);
        actions := actions + calls;
      }
      assert dirs[..2] == dirs;
      assert dirs[..1] == [BID];
      assert [BID][..0] == [];
    }

    /** The body of the loop over directions, for one side. */
    method UpdateSide(ourOrders: SecurityOrdersSnapshot, book: BookInfo, dir: Dir) returns (calls: seq<Action>)
      requires ourOrders.Valid() && IsSide(dir)
      ensures calls == DecideSide(ourOrders.ordersByDir[..], book, minVolumeToStayOnBest, dir)
    {
      var bestPrice := BestPrice(book, dir);
      var bestVolume := BestVolume(book, dir);
      var canStayOnBest := bestVolume >= minVolumeToStayOnBest;
      calls := [];
      if ourOrders.ActiveOrdersCount(dir) == 0 {
        calls := AddLimitOrderIf(dir, bestPrice, Basic.OrderAmount, canStayOnBest);
      } else {
        var firstOrder := ourOrders.ordersByDir[dir][0];
        var onBestPrice := firstOrder.order.price == bestPrice;
        if !onBestPrice || !canStayOnBest {
          calls := [DeleteOrder(firstOrder.order)];
          calls := calls + AddLimitOrderIf(dir, bestPrice, Basic.OrderAmount, canStayOnBest);
        }
      }
    }
  }

  // ---------------------------------------------------------------- properties

  /** With enough volume at the best price the gate is open and the strategy
      decides exactly as the plain stay-on-best-price strategy. */
  lemma OpenGateActsAsBasic(dir: Dir, orders: seq<OrderSnapshot>, bestPrice: Price)
    ensures Decide(dir, orders, bestPrice, true) == Basic.Decide(dir, orders, bestPrice)
  {
  }

  /** With too little volume the strategy adds nothing; it deletes its first
      listed order on that side exactly when the side has an active order. */
  lemma ClosedGateOnlyDeletes(dir: Dir, orders: seq<OrderSnapshot>, bestPrice: Price)
    ensures var r := Decide(dir, orders, bestPrice, false);
            |r| <= 1
            && (r != [] <==> CountActive(orders) > 0)
            && (r != [] ==> r[0] == DeleteOrder(orders[0].order))
  {
    CountActiveBound(orders);
  }

  /** Every order the update adds is one lot at its side's best price, on a
      side whose best volume reaches the configured minimum. */
  lemma AddsOnlyWhereVolume(byDir: seq<seq<OrderSnapshot>>, book: BookInfo, minVolume: int, dir: Dir)
    requires |byDir| == 2 && IsSide(dir)
    ensures forall a :: a in DecideSide(byDir, book, minVolume, dir) && !a.DeleteOrder? ==>
              a == AddLimitOrder(dir, BestPrice(book, dir), 1) && CanStayOnBest(BestVolume(book, dir), minVolume)
  {
    CountActiveBound(byDir[dir]);
  }

  /** At most one deletion and one addition per side, so at most four calls;
      if the snapshot files every order under its own side, all BID calls come
      before all ASK calls. */
  lemma UpdateShape(byDir: seq<seq<OrderSnapshot>>, book: BookInfo, minVolume: int)
    requires |byDir| == 2
    ensures var r := DecideSide(byDir, book, minVolume, BID) + DecideSide(byDir, book, minVolume, ASK);
            |r| <= 4 && (FiledBySide(byDir) ==> BidThenAsk(r))
  {
    var bid := DecideSide(byDir, book, minVolume, BID);
    var ask := DecideSide(byDir, book, minVolume, ASK);
    CountActiveBound(byDir[BID]);
    CountActiveBound(byDir[ASK]);
    assert |bid| <= 2 && |ask| <= 2;
    if FiledBySide(byDir) {
      assert AllOnSide(bid, BID);
      assert AllOnSide(ask, ASK);
      BidThenAskConcat(bid, ask);
    }
  }
}
