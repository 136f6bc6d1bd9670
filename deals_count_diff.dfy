/** The deal-imbalance strategy
    (strategies/deals_count_diff_strategy/deals_count_diff_strategy.cpp):
    it counts the market's deals per aggressor side, and once the counts
    differ by at least a threshold it sends one IOC order of one lot on the
    majority side at the opposite side's best price. The counters are
    cleared after a trade and after each reset period. */
module DealsCountDiff {
  import opened Ints
  import opened CommonEnums
  import opened StrategyActions

  const DefaultMinDealsCountDiff: int := 100
  const DefaultDealsResetPeriodMs: int := 10
  /** `Microseconds` compared with `Milliseconds`: std::chrono converts
      both to microseconds. */
  const MicrosecondsPerMillisecond: int := 1000

  /** The keys read from the JSON configuration. */
  datatype Config = Config(minDealsCountDiff: Option<int>, dealsResetPeriodMs: Option<int>)

  /** `deals_count_by_dir_` and `last_reset_time_` between two updates. */
  datatype Counters = Counters(bid: int, ask: int, lastResetTime: int)

  /** The effect of one `trading_deals_update`: the new counters and the
      orders sent. */
  datatype Outcome = Outcome(counters: Counters, actions: seq<Action>)

  function CountOf(c: Counters, d: Dir): int
    requires IsSide(d)
  {
    if d == BID then c.bid else c.ask
  }

  /** Number of deals whose aggressor side is `d`. */
  function CountDir(deals: seq<Deal>, d: Dir): nat
  {
    if deals == [] then 0
    else CountDir(deals[..|deals| - 1], d) + (if deals[|deals| - 1].dir == d then 1 else 0)
  }

  /** `deals_count_by_dir_[deal.dir]` is only defined for BID and ASK. */
  predicate AllSided(deals: seq<Deal>) {
    forall i :: 0 <= i < |deals| ==> IsSide(deals[i].dir)
  }

  /** The counters after the counting loop. */
  function Counted(c: Counters, deals: seq<Deal>): Counters
  {
    Counters(c.bid + CountDir(deals, BID), c.ask + CountDir(deals, ASK), c.lastResetTime)
  }

  /** `deals_count_diff >= min_deals_count_diff_`. */
  predicate Trade(c: Counters, minDiff: int) {
    Abs(c.ask - c.bid) >= minDiff
  }

  /** `dir_to_beat`: the majority side, ASK on a tie. */
  function DirToBeat(c: Counters): Dir
  {
    if c.ask >= c.bid then ASK else BID
  }

  /** The IOC order sent on a trade. */
  function BeatOrder(c: Counters, book: BookInfo): Action
  {
    var dir := DirToBeat(c);
    OppositeDirInvolution(dir);
    AddIocOrder(dir, BestPrice(book, OppositeDir(dir)), 1)
  }

  /** `trading_deals_update` as a function of the old counters, the
      configuration, the deals, the book and the server time `now`. */
  function DealsUpdate(c: Counters, minDiff: int, periodMs: int, deals: seq<Deal>, book: BookInfo, now: int): Outcome
  {
    var n := Counted(c, deals);
    var trade := Trade(n, minDiff);
    var actions := if trade then [BeatOrder(n, book)] else [];
    var reset := trade || now - c.lastResetTime >= periodMs * MicrosecondsPerMillisecond;
    Outcome(if reset then Counters(0, 0, now) else n, actions)
  }

  /** The counting loop shared by both deal strategies: each deal adds one
      to the counter of its own side. */
  method CountDeals(counts: array<int>, deals: seq<Deal>)
    requires counts.Length == 2 && AllSided(deals)
    modifies counts
    ensures counts[BID] == old(counts[BID]) + CountDir(deals, BID)
    ensures counts[ASK] == old(counts[ASK]) + CountDir(deals, ASK)
  {
    var k := 0;
    while k < |deals|
      invariant 0 <= k <= |deals|
      invariant counts[BID] == old(counts[BID]) + CountDir(deals[..k], BID)
      invariant counts[ASK] == old(counts[ASK]) + CountDir(deals[..k], ASK)
    {
      var deal := deals[k];
      counts[deal.dir] := counts[deal.dir] + 1;
      assert deals[..k + 1][..k] == deals[..k];
      k := k + 1;
    }
    assert deals[..k] == deals;
  }

  class UserStrategy {
    var lastResetTime: int
    const dealsCountByDir: array<int>
    const minDealsCountDiff: int
    const dealsResetPeriodMs: int

    ghost predicate Valid()
      reads this
    {
      dealsCountByDir.Length == 2
    }

    function State(): Counters
      requires Valid()
      reads this, dealsCountByDir
    {
      Counters(dealsCountByDir[BID], dealsCountByDir[ASK], lastResetTime)
    }

    constructor (config: Config)
      ensures Valid() && fresh(dealsCountByDir)
      ensures State() == Counters(0, 0, 0)
      ensures minDealsCountDiff == ConfigValue(config.minDealsCountDiff, DefaultMinDealsCountDiff)
      ensures dealsResetPeriodMs == ConfigValue(config.dealsResetPeriodMs, DefaultDealsResetPeriodMs)
    {
      lastResetTime := 0;
      dealsCountByDir := new int[2];
      minDealsCountDiff := ConfigValue(config.minDealsCountDiff, DefaultMinDealsCountDiff);
      dealsResetPeriodMs := ConfigValue(config.dealsResetPeriodMs, DefaultDealsResetPeriodMs);
      new;
      dealsCountByDir[BID] := 0;
      dealsCountByDir[ASK] := 0;
    }

    /** `trading_deals_update(deals)` with the book and `get_server_time()`
        as inputs; returns the orders sent. */
    method TradingDealsUpdate(deals: seq<Deal>, book: BookInfo, now: int) returns (actions: seq<Action>)
      requires Valid() && AllSided(deals)
      modifies this`lastResetTime, dealsCountByDir
      ensures Valid()
      ensures Outcome(State(), actions) == DealsUpdate(old(State()), minDealsCountDiff, dealsResetPeriodMs, deals, book, now)
    {
      ghost var before := State();
      CountDeals(dealsCountByDir, deals);
      assert State() == Counted(before, deals);
      var dealsCountDiff := Abs(dealsCountByDir[ASK] - dealsCountByDir[BID]);
      var trade := dealsCountDiff >= minDealsCountDiff;
      actions := [];
      if trade {
        var dirToBeat := if dealsCountByDir[ASK] >= dealsCountByDir[BID] then ASK else BID;
        OppositeDirInvolution(dirToBeat);
        var priceToBeat := BestPrice(book, OppositeDir(dirToBeat));
        actions := [AddIocOrder(dirToBeat, priceToBeat, 1)];
      }
      var timeDiffUs := now - lastResetTime;
      if trade || timeDiffUs >= dealsResetPeriodMs * MicrosecondsPerMillisecond {
        lastResetTime := now;
        dealsCountByDir[BID] := 0;
        dealsCountByDir[ASK] := 0;
      }
    }
  }

  // ---------------------------------------------------------------- properties

  lemma {:induction false} CountDirAdditive(a: seq<Deal>, b: seq<Deal>, d: Dir)
    ensures CountDir(a + b, d) == CountDir(a, d) + CountDir(b, d)
  {
    if b == [] {
      assert a + b == a;
    } else {
      CountDirAdditive(a, b[..|b| - 1], d);
      assert (a + b)[..|a + b| - 1] == a + b[..|b| - 1];
    }
  }

  /** Every deal is counted on exactly one side. */
  lemma {:induction false} CountsPartitionDeals(deals: seq<Deal>)
    requires AllSided(deals)
    ensures CountDir(deals, BID) + CountDir(deals, ASK) == |deals|
  {
    if deals != [] {
      var init := deals[..|deals| - 1];
      assert AllSided(init) by {
        forall i | 0 <= i < |init| ensures IsSide(init[i].dir) {
          assert init[i] == deals[i];
        }
      }
      CountsPartitionDeals(init);
    }
  }

  /** The counts depend on which deals arrived, not on their order. */
  lemma {:induction false} CountDirIgnoresOrder(a: seq<Deal>, b: seq<Deal>, d: Dir)
    requires multiset(a) == multiset(b)
    ensures CountDir(a, d) == CountDir(b, d)
  {
    if a == [] {
      assert |b| == |multiset(b)| == 0;
    } else {
      var n := |a| - 1;
      var x := a[n];
      assert a == a[..n] + [x];
      assert multiset(a[..n]) == multiset(a) - multiset{x};
      assert x in multiset(b);
      var j :| 0 <= j < |b| && b[j] == x;
      var rest := RemoveAt(b, j);
      CountDirRemoveAt(b, j, d);
      CountDirIgnoresOrder(a[..n], rest, d);
    }
  }

  function RemoveAt(b: seq<Deal>, j: int): (r: seq<Deal>)
    requires 0 <= j < |b|
    ensures multiset(r) == multiset(b) - multiset{b[j]}
  {
    assert b == b[..j] + [b[j]] + b[j + 1..];
    b[..j] + b[j + 1..]
  }

  lemma CountDirRemoveAt(b: seq<Deal>, j: int, d: Dir)
    requires 0 <= j < |b|
    ensures CountDir(b, d) == CountDir(RemoveAt(b, j), d) + (if b[j].dir == d then 1 else 0)
  {
    var x := b[j];
    assert b == b[..j] + [x] + b[j + 1..];
    CountDirAdditive(b[..j], [x], d);
    CountDirAdditive(b[..j] + [x], b[j + 1..], d);
    CountDirAdditive(b[..j], b[j + 1..], d);
    assert [x][..0] == [];
  }

  /** Deals delivered in a different order lead to the same outcome. */
  lemma DealsUpdateIgnoresOrder(c: Counters, minDiff: int, periodMs: int, a: seq<Deal>, b: seq<Deal>, book: BookInfo, now: int)
    requires multiset(a) == multiset(b)
    ensures DealsUpdate(c, minDiff, periodMs, a, book, now) == DealsUpdate(c, minDiff, periodMs, b, book, now)
  {
    CountDirIgnoresOrder(a, b, BID);
    CountDirIgnoresOrder(a, b, ASK);
  }

  /** An order is sent exactly when the updated counts differ by at least the
      threshold; it is one IOC lot on a side counted at least as often as the
      other, ASK on a tie, priced at the other side's best price. */
  lemma TradeOnMajoritySide(c: Counters, minDiff: int, periodMs: int, deals: seq<Deal>, book: BookInfo, now: int)
    ensures var o := DealsUpdate(c, minDiff, periodMs, deals, book, now);
            var n := Counted(c, deals);
            (o.actions != [] <==> Abs(CountOf(n, ASK) - CountOf(n, BID)) >= minDiff)
            && |o.actions| <= 1
            && (o.actions != [] ==>
                  var a := o.actions[0];
                  a.AddIocOrder? && a.amount == 1 && IsSide(a.dir)
                  && CountOf(n, a.dir) >= CountOf(n, OppositeDir(a.dir))
                  && (CountOf(n, ASK) == CountOf(n, BID) ==> a.dir == ASK)
                  && a.price == BestPrice(book, OppositeDir(a.dir)))
  {
    OppositeDirSwapsSides();
  }

  /** A trade, or a period of at least `periodMs` milliseconds since the
      last reset, clears the counters and restarts the period at `now`;
      otherwise every new deal stays counted and the period goes on. */
  lemma ResetRule(c: Counters, minDiff: int, periodMs: int, deals: seq<Deal>, book: BookInfo, now: int)
    requires AllSided(deals)
    ensures var o := DealsUpdate(c, minDiff, periodMs, deals, book, now);
            if o.actions != [] || now - c.lastResetTime >= periodMs * 1000 then
              o.counters == Counters(0, 0, now)
            else
              o.counters.bid + o.counters.ask == c.bid + c.ask + |deals|
              && o.counters.bid >= c.bid && o.counters.ask >= c.ask
              && o.counters.lastResetTime == c.lastResetTime
  {
    CountsPartitionDeals(deals);
  }

  /** With a positive threshold, the stored counts never differ by the
      threshold or more once an update is over. */
  lemma BalancedAfterUpdate(c: Counters, minDiff: int, periodMs: int, deals: seq<Deal>, book: BookInfo, now: int)
    requires minDiff > 0
    ensures var o := DealsUpdate(c, minDiff, periodMs, deals, book, now);
            Abs(o.counters.ask - o.counters.bid) < minDiff
  {
  }
}
