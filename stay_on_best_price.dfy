/** The stay-on-best-price strategy
    (strategies/stay_on_best_price_strategy/stay_on_best_price_strategy.cpp):
    on every book update it keeps one lot standing at the best price of each
    side, BID first, then ASK. The strategy has no state of its own, so
    `trading_book_update` is a method outside any class. */
module StayOnBestPrice {
  import opened CommonEnums
  import opened StrategyActions
  import opened OrdersSnapshot

  /** The lot size of every order the strategy sends. */
  const OrderAmount: int := 1

  /** The calls made for one side, given the side's orders in the snapshot
      and its best price. Only the FIRST listed order is looked at, whatever
      its status. */
  function Decide(dir: Dir, orders: seq<OrderSnapshot>, bestPrice: Price): seq<Action>
  {
    if CountActive(orders) == 0 then [AddLimitOrder(dir, bestPrice, OrderAmount)]
    else
      CountActiveBound(orders);
      var first := orders[0].order;
      if first.price == bestPrice then []
      else [DeleteOrder(first), AddLimitOrder(dir, bestPrice, OrderAmount)]
  }

  /** The calls made for the sides `dirs`, in that order. */
  function DecideAll(byDir: seq<seq<OrderSnapshot>>, book: BookInfo, dirs: seq<Dir>): seq<Action>
    requires |byDir| == 2 && forall i :: 0 <= i < |dirs| ==> IsSide(dirs[i])
  {
    if dirs == [] then []
    else
      var d := dirs[|dirs| - 1];
      assert IsSide(d);
      DecideAll(byDir, book, dirs[..|dirs| - 1]) + Decide(d, byDir[d], BestPrice(book, d))
  }

  /** `trading_book_update`, with `trading_book_info.orders()` and the best
      prices as inputs; returns the calls made. */
  method TradingBookUpdate(ourOrders: SecurityOrdersSnapshot, book: BookInfo) returns (actions: seq<Action>)
    requires ourOrders.Valid()
    ensures actions == Decide(BID, ourOrders.ordersByDir[BID], BestPrice(book, BID))
                     + Decide(ASK, ourOrders.ordersByDir[ASK], BestPrice(book, ASK))
  {
    var dirs := [BID, ASK];
    actions := [];
    for k := 0 to |dirs|
      invariant actions == DecideAll(ourOrders.ordersByDir[..], book, dirs[..k])
    {
      assert dirs[..k + 1][..k] == dirs[..k];
      var calls := UpdateSide(ourOrders, book, dirs[k]);
      actions := actions + calls;
    }
    assert dirs[..2] == dirs;
    assert dirs[..1] == [BID];
    assert [BID][..0] == [];
  }

  /** The body of the loop over directions, for one side. */
  method UpdateSide(ourOrders: SecurityOrdersSnapshot, book: BookInfo, dir: Dir) returns (calls: seq<Action>)
    requires ourOrders.Valid() && IsSide(dir)
    ensures calls == Decide(dir, ourOrders.ordersByDir[dir], BestPrice(book, dir))
  {
    var bestPrice := BestPrice(book, dir);
    calls := [];
    if ourOrders.ActiveOrdersCount(dir) == 0 {
      calls := [AddLimitOrder(dir, bestPrice, OrderAmount)];
    } else {
      var firstOrder := ourOrders.ordersByDir[dir][0];
      var onBestPrice := firstOrder.order.price == bestPrice;
      if !onBestPrice {
        calls := [DeleteOrder(firstOrder.order), AddLimitOrder(dir, bestPrice, OrderAmount)];
      }
    }
  }

  // ---------------------------------------------------------------- properties

  /** For one side: nothing is sent exactly when there is an active order and
      the first listed order stands at the best price. Otherwise one lot is
      added at the best price on that side, preceded by the deletion of the
      first listed order when there are active orders; that order is then
      off the best price. */
  lemma DecideRule(dir: Dir, orders: seq<OrderSnapshot>, bestPrice: Price)
    ensures var r := Decide(dir, orders, bestPrice);
            (r == [] <==> CountActive(orders) > 0 && orders[0].order.price == bestPrice)
            && (r != [] ==> r[|r| - 1] == AddLimitOrder(dir, bestPrice, 1))
            && (|r| == 2 <==> CountActive(orders) > 0 && orders[0].order.price != bestPrice)
            && (|r| == 2 ==> r[0] == DeleteOrder(orders[0].order))
            && |r| <= 2
  {
    CountActiveBound(orders);
  }

  /** After the update, each side either keeps its first order at the best
      price or has just asked for a lot there. */
  lemma StaysOnBest(dir: Dir, orders: seq<OrderSnapshot>, bestPrice: Price)
    ensures var r := Decide(dir, orders, bestPrice);
            AddLimitOrder(dir, bestPrice, OrderAmount) in r
            || (|orders| > 0 && orders[0].order.price == bestPrice && r == [])
  {
    CountActiveBound(orders);
  }

  /** At most one deletion and one addition per side, so at most four calls;
      if the snapshot files every order under its own side, all BID calls come
      before all ASK calls. */
  lemma UpdateShape(byDir: seq<seq<OrderSnapshot>>, book: BookInfo)
    requires |byDir| == 2
    ensures var r := Decide(BID, byDir[BID], BestPrice(book, BID)) + Decide(ASK, byDir[ASK], BestPrice(book, ASK));
            |r| <= 4 && (FiledBySide(byDir) ==> BidThenAsk(r))
  {
    DecideRule(BID, byDir[BID], BestPrice(book, BID));
    DecideRule(ASK, byDir[ASK], BestPrice(book, ASK));
    if FiledBySide(byDir) {
      DecideOnSide(BID, byDir[BID], BestPrice(book, BID));
      DecideOnSide(ASK, byDir[ASK], BestPrice(book, ASK));
      BidThenAskConcat(Decide(BID, byDir[BID], BestPrice(book, BID)), Decide(ASK, byDir[ASK], BestPrice(book, ASK)));
    }
  }

  lemma DecideOnSide(dir: Dir, orders: seq<OrderSnapshot>, bestPrice: Price)
    requires forall i :: 0 <= i < |orders| ==> orders[i].order.dir == dir
    ensures AllOnSide(Decide(dir, orders, bestPrice), dir)
  {
    CountActiveBound(orders);
  }
}
