/** The deal-imbalance strategy with a cap on the strategy's own traded
    volume (strategies/deals_count_diff_with_limit_strategy/
    deals_count_diff_with_limit_strategy.cpp). Execution reports add up the
    lots the strategy traded; once the sum exceeds the cap the strategy
    latches `trading_finished_` and ignores all later deals. Until then it
    behaves as the plain strategy of module DealsCountDiff. */
module DealsCountDiffWithLimit {
  import opened CommonEnums
  import opened StrategyActions
  import Ints
  import Base = DealsCountDiff

  const DefaultMinDealsCountDiff: int := 100
  const DefaultDealsResetPeriodMs: int := 10
  const DefaultOurDealsMaxTotalAmount: int := 1000

  datatype Config = Config(minDealsCountDiff: Option<int>, dealsResetPeriodMs: Option<int>, ourDealsMaxTotalAmount: Option<int>)

  /** The three configured values. */
  datatype Params = Params(minDealsCountDiff: int, dealsResetPeriodMs: int, ourDealsMaxTotalAmount: int)

  /** The mutable fields: the counters and reset time of the plain strategy,
      `our_deals_total_amount_` and `trading_finished_`. */
  datatype State = State(counters: Base.Counters, total: int, finished: bool)

  function InitialState(): State
  {
    State(Base.Counters(0, 0, 0), 0, false)
  }

  /** `trading_deals_update`: nothing at all once finished, the plain
      strategy's update otherwise. */
  function LimitedDealsUpdate(s: State, p: Params, deals: seq<Deal>, book: BookInfo, now: int): (State, seq<Action>)
  {
    if s.finished then (s, [])
    else
      var o := Base.DealsUpdate(s.counters, p.minDealsCountDiff, p.dealsResetPeriodMs, deals, book, now);
      (s.(counters := o.counters), o.actions)
  }

  /** `execution_report_update`: add the traded lots, latch when the sum
      exceeds the cap (strictly). */
  function ReportUpdate(s: State, p: Params, dealAmount: int): State
  {
    var total := s.total + dealAmount;
    s.(total := total, finished := s.finished || total > p.ourDealsMaxTotalAmount)
  }

  /** The callbacks the simulator makes, in the order it makes them. */
  datatype Event =
    | DealsEvent(deals: seq<Deal>, book: BookInfo, now: int)
    | ReportEvent(dealAmount: int)

  function Step(s: State, p: Params, e: Event): (State, seq<Action>)
  {
    match e
    case DealsEvent(deals, book, now) => LimitedDealsUpdate(s, p, deals, book, now)
    case ReportEvent(amount) => (ReportUpdate(s, p, amount), [])
  }

  /** The state after a sequence of callbacks and every order sent on the way. */
  function Run(s: State, p: Params, events: seq<Event>): (State, seq<Action>)
    decreases |events|
  {
    if events == [] then (s, [])
    else
      var first := Step(s, p, events[0]);
      var rest := Run(first.0, p, events[1..]);
      (rest.0, first.1 + rest.1)
  }

  /** The lots of all execution reports among `events`. */
  function ReportedAmount(events: seq<Event>): int
  {
    if events == [] then 0
    else (if events[0].ReportEvent? then events[0].dealAmount else 0) + ReportedAmount(events[1..])
  }

  predicate NonNegativeReports(events: seq<Event>) {
    forall i :: 0 <= i < |events| && events[i].ReportEvent? ==> events[i].dealAmount >= 0
  }

  /** The latch is set exactly when the total is over the cap. */
  predicate LatchMatchesTotal(s: State, p: Params) {
    s.finished <==> s.total > p.ourDealsMaxTotalAmount
  }

  class UserStrategy {
    var lastResetTime: int
    var ourDealsTotalAmount: int
    var tradingFinished: bool
    const dealsCountByDir: array<int>
    const minDealsCountDiff: int
    const dealsResetPeriodMs: int
    const ourDealsMaxTotalAmount: int

    ghost predicate Valid()
      reads this
    {
      dealsCountByDir.Length == 2
    }

    function Settings(): Params
      reads this
    {
      Params(minDealsCountDiff, dealsResetPeriodMs, ourDealsMaxTotalAmount)
    }

    function Current(): State
      requires Valid()
      reads this, dealsCountByDir
    {
      State(
        Base.Counters(dealsCountByDir[BID], dealsCountByDir[ASK], lastResetTime),
        ourDealsTotalAmount, tradingFinished)
    }

    constructor (config: Config)
      ensures Valid() && fresh(dealsCountByDir)
      ensures Current() == InitialState()
      ensures minDealsCountDiff == ConfigValue(config.minDealsCountDiff, DefaultMinDealsCountDiff)
      ensures dealsResetPeriodMs == ConfigValue(config.dealsResetPeriodMs, DefaultDealsResetPeriodMs)
      ensures ourDealsMaxTotalAmount == ConfigValue(config.ourDealsMaxTotalAmount, DefaultOurDealsMaxTotalAmount)
    {
      lastResetTime := 0;
      ourDealsTotalAmount := 0;
      tradingFinished := false;
      dealsCountByDir := new int[2];
      minDealsCountDiff := ConfigValue(config.minDealsCountDiff, DefaultMinDealsCountDiff);
      dealsResetPeriodMs := ConfigValue(config.dealsResetPeriodMs, DefaultDealsResetPeriodMs);
      ourDealsMaxTotalAmount := ConfigValue(config.ourDealsMaxTotalAmount, DefaultOurDealsMaxTotalAmount);
      new;
      dealsCountByDir[BID] := 0;
      dealsCountByDir[ASK] := 0;
    }

    /** `trading_deals_update(deals)`; returns the orders sent. */
    method TradingDealsUpdate(deals: seq<Deal>, book: BookInfo, now: int) returns (actions: seq<Action>)
      requires Valid() && Base.AllSided(deals)
      modifies this`lastResetTime, dealsCountByDir
      ensures Valid()
      ensures (Current(), actions) == LimitedDealsUpdate(old(Current()), Settings(), deals, book, now)
    {
      actions := [];
      if tradingFinished {
        return;
      }
      ghost var before := Current();
      Base.CountDeals(dealsCountByDir, deals);
      assert Current().counters == Base.Counted(before.counters, deals);
      var dealsCountDiff := Ints.Abs(dealsCountByDir[ASK] - dealsCountByDir[BID]);
      var trade := dealsCountDiff >= minDealsCountDiff;
      if trade {
        var dirToBeat := if dealsCountByDir[ASK] >= dealsCountByDir[BID] then ASK else BID;
        OppositeDirInvolution(dirToBeat);
        var priceToBeat := BestPrice(book, OppositeDir(dirToBeat));
        actions := [AddIocOrder(dirToBeat, priceToBeat, 1)];
      }
      var timeDiffUs := now - lastResetTime;
      if trade || timeDiffUs >= dealsResetPeriodMs * Base.MicrosecondsPerMillisecond {
        lastResetTime := now;
        dealsCountByDir[BID] := 0;
        dealsCountByDir[ASK] := 0;
      }
    }

    /** `execution_report_update(report)`, given the report's `deal_amount()`. */
    method ExecutionReportUpdate(dealAmount: int)
      requires Valid()
      modifies this`ourDealsTotalAmount, this`tradingFinished
      ensures Valid()
      ensures Current() == ReportUpdate(old(Current()), Settings(), dealAmount)
    {
      ourDealsTotalAmount := ourDealsTotalAmount + dealAmount;
      if ourDealsTotalAmount > ourDealsMaxTotalAmount {
        tradingFinished := true;
      }
    }
  }

  // ---------------------------------------------------------------- properties

  /** Once finished, a strategy stays finished whatever happens next, sends
      no order and its deal counters and reset time stay frozen. */
  lemma {:induction false} FinishedIsFinal(s: State, p: Params, events: seq<Event>)
    requires s.finished
    ensures Run(s, p, events).0.finished
    ensures Run(s, p, events).1 == []
    ensures Run(s, p, events).0.counters == s.counters
    decreases |events|
  {
    if events != [] {
      var first := Step(s, p, events[0]);
      assert first.0.finished && first.1 == [] && first.0.counters == s.counters;
      FinishedIsFinal(first.0, p, events[1..]);
    }
  }

  /** The running total is the initial total plus every reported lot. */
  lemma {:induction false} TotalCountsEveryReport(s: State, p: Params, events: seq<Event>)
    ensures Run(s, p, events).0.total == s.total + ReportedAmount(events)
    decreases |events|
  {
    if events != [] {
      TotalCountsEveryReport(Step(s, p, events[0]).0, p, events[1..]);
    }
  }

  /** With non-negative deal amounts the latch and the total agree after
      every callback, once they agree at the start. */
  lemma {:induction false} LatchTracksTotal(s: State, p: Params, events: seq<Event>)
    requires LatchMatchesTotal(s, p) && NonNegativeReports(events)
    ensures LatchMatchesTotal(Run(s, p, events).0, p)
    decreases |events|
  {
    if events != [] {
      var next := Step(s, p, events[0]).0;
      assert events[0].ReportEvent? ==> events[0].dealAmount >= 0;
      assert LatchMatchesTotal(next, p);
      assert NonNegativeReports(events[1..]) by {
        forall i | 0 <= i < |events[1..]| && events[1..][i].ReportEvent?
          ensures events[1..][i].dealAmount >= 0
        {
          assert events[1..][i] == events[i + 1];
        }
      }
      LatchTracksTotal(next, p, events[1..]);
    }
  }

  /** From the constructor's state, with a non-negative cap and non-negative
      deal amounts, trading is finished exactly when the reported lots sum
      to more than the cap. */
  lemma FinishedIffOverCap(p: Params, events: seq<Event>)
    requires p.ourDealsMaxTotalAmount >= 0 && NonNegativeReports(events)
    ensures Run(InitialState(), p, events).0.finished <==> ReportedAmount(events) > p.ourDealsMaxTotalAmount
  {
    LatchTracksTotal(InitialState(), p, events);
    TotalCountsEveryReport(InitialState(), p, events);
  }

  /** An execution report never touches the deal counters and never clears
      the latch. */
  lemma ReportKeepsCountersAndLatch(s: State, p: Params, dealAmount: int)
    ensures ReportUpdate(s, p, dealAmount).counters == s.counters
    ensures s.finished ==> ReportUpdate(s, p, dealAmount).finished
    ensures ReportUpdate(s, p, dealAmount).finished ==> s.finished || s.total + dealAmount > p.ourDealsMaxTotalAmount
  {
  }

  /** While not finished, a deals update is exactly the plain strategy's:
      same counting, threshold, direction, order and reset. */
  lemma UnfinishedActsAsBase(s: State, p: Params, deals: seq<Deal>, book: BookInfo, now: int)
    requires !s.finished
    ensures var r := LimitedDealsUpdate(s, p, deals, book, now);
            var o := Base.DealsUpdate(s.counters, p.minDealsCountDiff, p.dealsResetPeriodMs, deals, book, now);
            r.0.counters == o.counters && r.1 == o.actions
            && r.0.total == s.total && !r.0.finished
  {
  }
}
