/** What a strategy sees of the simulator and what it asks of it. The
    simulator's order calls (`add_limit_order`, `add_ioc_order`,
    `delete_order`, include/participant_strategy.h) are not modelled as
    effects: a callback returns the calls it makes, in order. Market data
    (`ContestBookInfo`, `Deal`) and the server clock are inputs. */
module StrategyActions {
  import opened CommonEnums
  import Decimals
  import OrdersSnapshot

  type Price = Decimals.Decimal

  datatype Option<T> = None | Some(value: T)

  /** `config[key].as<T>(default)`: the configured number, or the default
      when the key is absent. */
  function ConfigValue(v: Option<int>, default: int): int
  {
    if v.Some? then v.value else default
  }

  /** One call into the simulator. */
  datatype Action =
    | AddLimitOrder(dir: Dir, price: Price, amount: int)
    | AddIocOrder(dir: Dir, price: Price, amount: int)
    | DeleteOrder(order: OrdersSnapshot.Order)

  /** The side an action concerns; a deletion concerns the side of the order. */
  function ActionDir(a: Action): Dir
  {
    if a.DeleteOrder? then a.order.dir else a.dir
  }

  /** The part of `ContestBookInfo` the strategies read: best price and the
      volume at it, per side. */
  datatype BookInfo = BookInfo(bidPrice: Price, askPrice: Price, bidVolume: int, askVolume: int)

  /** `best_price(dir)`: an index into a two-element array. */
  function BestPrice(book: BookInfo, dir: Dir): Price
    requires IsSide(dir)
  {
    if dir == BID then book.bidPrice else book.askPrice
  }

  /** `best_volume(dir)`. */
  function BestVolume(book: BookInfo, dir: Dir): int
    requires IsSide(dir)
  {
    if dir == BID then book.bidVolume else book.askVolume
  }

  /** The fields of `Deal` a strategy reads: the aggressor's direction, the
      price and the amount. */
  datatype Deal = Deal(dir: Dir, price: Price, amount: int)

  /** Every order listed under a side belongs to that side. */
  predicate FiledBySide(byDir: seq<seq<OrdersSnapshot.OrderSnapshot>>) {
    |byDir| == 2
    && (forall i :: 0 <= i < |byDir[BID]| ==> byDir[BID][i].order.dir == BID)
    && (forall i :: 0 <= i < |byDir[ASK]| ==> byDir[ASK][i].order.dir == ASK)
  }

  /** All actions concern `d`. */
  predicate AllOnSide(actions: seq<Action>, d: Dir) {
    forall i :: 0 <= i < |actions| ==> ActionDir(actions[i]) == d
  }

  /** The actions concern BID and ASK only, and every BID action comes before
      every ASK action. */
  predicate BidThenAsk(actions: seq<Action>) {
    (forall i :: 0 <= i < |actions| ==> IsSide(ActionDir(actions[i])))
    && (forall i, j :: 0 <= i < j < |actions| ==> ActionDir(actions[i]) <= ActionDir(actions[j]))
  }

  lemma BidThenAskConcat(a: seq<Action>, b: seq<Action>)
    requires AllOnSide(a, BID) && AllOnSide(b, ASK)
    ensures BidThenAsk(a + b)
  {
    var ab := a + b;
    forall i | 0 <= i < |ab| ensures ActionDir(ab[i]) == (if i < |a| then BID else ASK) {
      if i < |a| { assert ab[i] == a[i]; } else { assert ab[i] == b[i - |a|]; }
    }
  }
}
