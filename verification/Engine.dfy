/**
 The engine's own methods, one per critical section, proved against the functions that the step system
 (EngineSteps) is made of; and the worker's and a submitter's code run without interference.
 */
module Engine {
  import opened Common
  import opened Portfolio
  import opened EngineSteps

  datatype Receipt =
    | NotRunning
    | NoSymbol
    | BadQuantity
    | RiskRejected(rejectedId: string)
    | Accepted(orderId: string)

  class RiskManagedEngine {
    var running: bool
    var orderQueue: seq<Order>
    var positions: Book
    var markPrices: Prices
    var riskLimits: Limits
    // The 64-bit width of the counter shows in `OrderId`, which prints it.
    var orderCounter: nat

    /** The members that the threads share, as the step system sees them. */
    ghost function View(): Shared
      reads this
    {
      Shared(running, orderQueue, positions, markPrices, riskLimits, orderCounter)
    }

    constructor (limits: Limits)
      ensures View() == Init(limits).shared
    {
      running, orderQueue, positions, markPrices := false, [], map[], map[];
      riskLimits, orderCounter := limits, 0;
    }

    method UpdateRiskLimits(limits: Limits)
      modifies this
      ensures View() == old(View()).(limits := limits)
    {
      riskLimits := limits;
    }

    method UpdateMarkPrice(symbol: string, price: real)
      modifies this
      ensures View() == PriceSet(old(View()), symbol, price)
      ensures symbol != "" && price > 0.0 ==> markPrices == old(markPrices)[symbol := price]
      ensures symbol == "" || price <= 0.0 ==> markPrices == old(markPrices)
    {
      if |symbol| == 0 {
        return;
      }
      if price <= 0.0 {
        return;
      }
      markPrices := markPrices[symbol := price];
    }

    method GenerateOrderId() returns (id: string)
      modifies this
      ensures View() == old(View()).(issued := old(orderCounter) + 1)
      ensures id == OrderId(orderCounter)
    {
      orderCounter := orderCounter + 1;
      id := OrderId(orderCounter);
    }

    /** The gate: it adds up the exposure in whatever order the map is walked. */
    method ApplyRiskChecks(order: Order) returns (accepted: bool)
      ensures accepted == Accepts(positions, markPrices, riskLimits, order)
    {
      var projectedPosition := Position(positions, order.symbol) + Signed(order);
      if riskLimits.maxPosition > 0.0 && Abs(projectedPosition) > riskLimits.maxPosition {
        return false;
      }
      if riskLimits.maxExposure <= 0.0 {
        return true;
      }
      if !Priced(markPrices, order.symbol) {
        return false;
      }
      var projectedExposure := Abs(projectedPosition) * markPrices[order.symbol];
      var priced, others := OtherExposure(order.symbol);
      assert projectedExposure == Notional(markPrices, order.symbol, projectedPosition);
      GateIs(positions, markPrices, riskLimits, order, priced, others);
      if !priced {
        return false;
      }
      projectedExposure := projectedExposure + others;
      if projectedExposure > riskLimits.maxExposure {
        return false;
      }
      return true;
    }

    /** The loop over the other positions; it stops at the first one without a price. */
    method OtherExposure(symbol: string) returns (priced: bool, exposure: real)
      ensures priced == forall s <- positions :: s != symbol ==> Priced(markPrices, s)
      ensures priced ==> exposure == Total(positions, markPrices, positions.Keys - {symbol})
    {
      exposure := 0.0;
      ghost var visited: set<string> := {};
      var remaining := positions.Keys;
      while remaining != {}
        invariant remaining <= positions.Keys && visited == positions.Keys - remaining - {symbol}
        invariant forall s <- visited :: Priced(markPrices, s)
        invariant exposure == Total(positions, markPrices, visited)
      {
        var other :| other in remaining;
        remaining := remaining - {other};
        if other == symbol {
          continue;
        }
        if !Priced(markPrices, other) {
          return false, exposure;
        }
        VisitOne(positions, markPrices, visited, other);
        visited := visited + {other};
        exposure := exposure + Abs(positions[other]) * markPrices[other];
      }
      assert visited == positions.Keys - {symbol};
      priced := true;
    }

    /** The monitor: its warnings are exactly those due, and there are none exactly when the portfolio is healthy. */
    method EvaluateAggregateRisk() returns (warnings: seq<Warning>)
      ensures forall w :: w in warnings <==> Due(positions, markPrices, riskLimits, w)
      ensures warnings == [] <==> Healthy(positions, markPrices, riskLimits)
    {
      warnings := [];
      var totalExposure := 0.0;
      var missingExposureData := false;
      ghost var visited: set<string> := {};
      var remaining := positions.Keys;
      while remaining != {}
        invariant remaining <= positions.Keys && visited == positions.Keys - remaining
        invariant totalExposure == Total(positions, markPrices, visited)
        invariant missingExposureData <==> exists s <- visited :: !Priced(markPrices, s)
        invariant forall w :: w in warnings <==> DueAmong(positions, markPrices, riskLimits, visited, w)
      {
        var symbol :| symbol in remaining;
        remaining := remaining - {symbol};
        VisitOne(positions, markPrices, visited, symbol);
        ghost var seen := visited;
        visited := visited + {symbol};
        var own := SymbolWarnings(symbol);
        AddWarnings(positions, markPrices, riskLimits, seen, symbol, warnings, own);
        warnings := warnings + own;
        if !Priced(markPrices, symbol) {
          missingExposureData := true;
        } else {
          totalExposure := totalExposure + Abs(positions[symbol]) * markPrices[symbol];
        }
      }
      assert visited == positions.Keys;
      if riskLimits.maxExposure > 0.0 {
        if !missingExposureData && totalExposure > riskLimits.maxExposure {
          warnings := warnings + [AggregateBreach];
        } else if missingExposureData {
          warnings := warnings + [AggregateUnknown];
        }
      }
      AllWarnings(positions, markPrices, riskLimits, warnings);
    }

    /** The warnings about one symbol: without a price there is only one. */
    method SymbolWarnings(symbol: string) returns (warnings: seq<Warning>)
      requires symbol in positions
      ensures forall w :: w in warnings <==> DueAmong(positions, markPrices, riskLimits, {symbol}, w)
    {
      warnings := [];
      var absoluteQty := Abs(positions[symbol]);
      if !Priced(markPrices, symbol) {
        return [NoPrice(symbol)];
      }
      var notional := absoluteQty * markPrices[symbol];
      if riskLimits.maxPosition > 0.0 && absoluteQty > riskLimits.maxPosition {
        warnings := warnings + [PositionBreach(symbol)];
      }
      if riskLimits.maxExposure > 0.0 && notional > riskLimits.maxExposure {
        warnings := warnings + [ExposureBreach(symbol)];
      }
    }

    method UpdatePositionTracking(order: Order)
      modifies this
      ensures View() == old(View()).(positions := Applied(old(positions), order))
      ensures var held := if order.symbol in old(positions) then old(positions)[order.symbol] else 0.0;
        && order.symbol in positions
        && (order.side.Buy? ==> positions[order.symbol] == held + order.quantity)
        && (order.side.Sell? ==> positions[order.symbol] == held - order.quantity)
      ensures forall s :: s != order.symbol ==> (s in positions <==> s in old(positions))
      ensures forall s <- old(positions) :: s != order.symbol ==> positions[s] == old(positions)[s]
    {
      positions := positions[order.symbol := Position(positions, order.symbol) + Signed(order)];
    }

    /** One batch, undisturbed: the sequential processor on its orders. `log` records the notifications. */
    method RoutePendingOrders(orders: seq<Order>) returns (log: seq<Outcome>)
      modifies this
      ensures log == Fifo(old(positions), markPrices, riskLimits, orders)
      ensures View() == old(View()).(positions := ReplayFrom(old(positions), log))
    {
      log := [];
      for i := 0 to |orders|
        invariant log == Fifo(old(positions), markPrices, riskLimits, orders[..i])
        invariant View() == old(View()).(positions := ReplayFrom(old(positions), log))
      {
        var order := orders[i];
        assert orders[..i + 1] == orders[..i] + [order];
        FifoSnoc(old(positions), markPrices, riskLimits, orders[..i], order);
        var accepted := ApplyRiskChecks(order);
        if !accepted {
          ReplayFromSnoc(old(positions), log, Rejected(order, markPrices, riskLimits));
          log := log + [Rejected(order, markPrices, riskLimits)];
          continue;
        }
        ReplayFromSnoc(old(positions), log, Executed(order, markPrices, riskLimits));
        UpdatePositionTracking(order);
        log := log + [Executed(order, markPrices, riskLimits)];
      }
      assert orders[..|orders|] == orders;
    }

    /** The worker's swap and the batch it takes: the queue is empty afterwards. */
    method RouteQueue() returns (log: seq<Outcome>)
      modifies this
      ensures log == Fifo(old(positions), markPrices, riskLimits, old(orderQueue))
      ensures View() == old(View()).(queue := [], positions := ReplayFrom(old(positions), log))
    {
      var pending := orderQueue;
      orderQueue := [];
      log := [];
      if |pending| > 0 {
        log := RoutePendingOrders(pending);
      }
    }

    method Start()
      modifies this
      ensures View() == old(View()).(running := true)
    {
      if running {
        return;
      }
      running := true;
    }

    /** Stopping waits for the worker, whose last act is the final drain. */
    method Stop() returns (log: seq<Outcome>)
      modifies this
      ensures !running
      ensures !old(running) ==> View() == old(View()) && log == []
      ensures old(running) ==>
        log == Fifo(old(positions), markPrices, riskLimits, old(orderQueue))
        && View() == old(View()).(running := false, queue := [], positions := ReplayFrom(old(positions), log))
    {
      if !running {
        return [];
      }
      running := false;
      log := RouteQueue();
    }

    /** A call of `submitOrder`, undisturbed. */
    method SubmitOrder(request: Request) returns (receipt: Receipt)
      modifies this
      ensures receipt == NotRunning <==> !old(running)
      ensures receipt == NoSymbol <==> old(running) && request.symbol == ""
      ensures receipt == BadQuantity <==> old(running) && request.symbol != "" && request.quantity <= 0.0
      ensures receipt.NotRunning? || receipt.NoSymbol? || receipt.BadQuantity? ==> View() == old(View())
      ensures old(running) && request.symbol != "" && request.quantity > 0.0 ==>
        var order := Order(old(orderCounter) + 1, request.symbol, request.quantity, request.limitPrice, request.side);
        var numbered := old(View()).(issued := order.serial);
        if Accepts(old(positions), old(markPrices), old(riskLimits), order) then
          View() == numbered.(queue := old(orderQueue) + [order]) && receipt == Accepted(OrderId(order.serial))
        else
          View() == numbered && receipt == RiskRejected(OrderId(order.serial))
    {
      if !running {
        return NotRunning;
      }
      if |request.symbol| == 0 {
        return NoSymbol;
      }
      if request.quantity <= 0.0 {
        return BadQuantity;
      }
      var id := GenerateOrderId();
      var order := Order(orderCounter, request.symbol, request.quantity, request.limitPrice, request.side);
      var accepted := ApplyRiskChecks(order);
      if !accepted {
        return RiskRejected(id);
      }
      orderQueue := orderQueue + [order];
      return Accepted(id);
    }
  }

  /** What the gate computes, with the exposure limit on, decides the rule. */
  lemma GateIs(book: Book, prices: Prices, limits: Limits, o: Order, priced: bool, others: real)
    requires limits.maxExposure > 0.0 && Priced(prices, o.symbol)
    requires priced == forall s <- book :: s != o.symbol ==> Priced(prices, s)
    requires priced ==> others == Total(book, prices, book.Keys - {o.symbol})
    ensures var projected := Position(book, o.symbol) + Signed(o);
      Accepts(book, prices, limits, o) ==
        ((limits.maxPosition > 0.0 ==> Abs(projected) <= limits.maxPosition)
         && priced && Notional(prices, o.symbol, projected) + others <= limits.maxExposure)
  {
    var after := Applied(book, o);
    assert Abs(after[o.symbol]) == Abs(Position(book, o.symbol) + Signed(o));
    AppliedPriced(book, prices, o);
    AcceptsAs(book, prices, limits, o, after);
    if priced {
      ExposureApplied(book, prices, o);
    }
  }

  lemma AcceptsAs(book: Book, prices: Prices, limits: Limits, o: Order, after: Book)
    requires limits.maxExposure > 0.0 && after == Applied(book, o)
    ensures Accepts(book, prices, limits, o) ==
      ((limits.maxPosition > 0.0 ==> Abs(after[o.symbol]) <= limits.maxPosition)
       && AllPriced(after, prices) && Exposure(after, prices) <= limits.maxExposure)
  {
  }

  lemma AppliedPriced(book: Book, prices: Prices, o: Order)
    requires Priced(prices, o.symbol)
    ensures AllPriced(Applied(book, o), prices) <==> forall s <- book :: s != o.symbol ==> Priced(prices, s)
  {
  }

  lemma VisitOne(book: Book, prices: Prices, visited: set<string>, symbol: string)
    requires visited <= book.Keys && symbol in book && symbol !in visited
    ensures Total(book, prices, visited + {symbol})
         == Total(book, prices, visited) + Notional(prices, symbol, book[symbol])
  {
    TotalSplit(book, prices, visited + {symbol}, symbol);
    assert visited + {symbol} - {symbol} == visited;
  }

  /** A warning about a single symbol that is due, for one of the given symbols. */
  ghost predicate DueAmong(book: Book, prices: Prices, limits: Limits, symbols: set<string>, w: Warning) {
    !w.AggregateBreach? && !w.AggregateUnknown? && w.symbol in symbols && Due(book, prices, limits, w)
  }

  lemma AddWarnings(book: Book, prices: Prices, limits: Limits, seen: set<string>, symbol: string,
                    warnings: seq<Warning>, own: seq<Warning>)
    requires forall w :: w in warnings <==> DueAmong(book, prices, limits, seen, w)
    requires forall w :: w in own <==> DueAmong(book, prices, limits, {symbol}, w)
    ensures forall w :: w in warnings + own <==> DueAmong(book, prices, limits, seen + {symbol}, w)
  {
  }

  lemma AllWarnings(book: Book, prices: Prices, limits: Limits, warnings: seq<Warning>)
    requires forall w :: w in warnings <==> Due(book, prices, limits, w)
    ensures warnings == [] <==> Healthy(book, prices, limits)
  {
    MonitorAgrees(book, prices, limits);
    if warnings != [] {
      assert warnings[0] in warnings;
    }
  }

  /** The steps of the price feed and of the limit updater, and the refusal of a call, written out. */
  lemma OutsideSteps(s: State, symbol: string, price: real, limits: Limits, t: nat, request: Request)
    ensures Step(s, SetPrice(symbol, price))
         == if symbol != "" && price > 0.0
            then s.(shared := s.shared.(prices := s.shared.prices[symbol := price])) else s
    ensures Step(s, SetLimits(limits)) == s.(shared := s.shared.(limits := limits))
    ensures t !in s.submissions ==>
      Step(s, Begin(t, request))
      == if s.shared.running && request.symbol != "" && request.quantity > 0.0
         then s.(submissions := s.submissions[t := Validated(request)]) else s
  {
    assert s.(shared := s.shared) == s;
  }

  /**
   The owner's steps written out: starting a running engine and stopping a stopped one do nothing, and the owner
   waits in `stop` until the worker has exited.
   */
  lemma OwnerSteps(s: State)
    ensures Step(s, Start)
         == if !s.stopping && !s.shared.running
            then s.(shared := s.shared.(running := true), worker := AtLoopHead) else s
    ensures Step(s, Stop)
         == if !s.stopping && s.shared.running
            then s.(shared := s.shared.(running := false), stopping := true) else s
    ensures Step(s, Join) == s.(stopping := s.stopping && !s.worker.Exited?)
  {
    assert s.(stopping := s.stopping) == s;
  }

  /** An undisturbed call of `SubmitOrder` is a run of the caller's steps. */
  lemma SubmitIsFiveSteps(s: State, t: nat, request: Request)
    requires t !in s.submissions && s.shared.running && request.symbol != "" && request.quantity > 0.0
    ensures var order :=
        Order(s.shared.issued + 1, request.symbol, request.quantity, request.limitPrice, request.side);
      var numbered := s.shared.(issued := order.serial);
      Run(s, [Begin(t, request), Number(t), Check(t), Push(t), Return(t)]).shared
      == if Accepts(s.shared.positions, s.shared.prices, s.shared.limits, order)
         then numbered.(queue := s.shared.queue + [order]) else numbered
  {
    FiveSteps(s, t, request, NextOrder(s.shared, request));
  }

  lemma FiveSteps(s: State, t: nat, request: Request, order: Order)
    requires t !in s.submissions && MayBegin(s.shared, request) && order == NextOrder(s.shared, request)
    ensures var numbered := s.shared.(issued := order.serial);
      Run(s, [Begin(t, request), Number(t), Check(t), Push(t), Return(t)]).shared
      == if Accepts(s.shared.positions, s.shared.prices, s.shared.limits, order)
         then numbered.(queue := s.shared.queue + [order]) else numbered
  {
    var acts := [Begin(t, request), Number(t), Check(t), Push(t), Return(t)];
    assert acts[..0] == [] && acts[..5] == acts;
    RunTo(s, acts, 1);
    RunTo(s, acts, 2);
    TwoSteps(s, t, request, order);
    RunTo(s, acts, 3);
    RunTo(s, acts, 4);
    RunTo(s, acts, 5);
    ThreeSteps(Run(s, acts[..2]), t, order);
  }

  /** An undisturbed `RouteQueue` is a run of the worker's steps from its swap to the end of the round. */
  lemma RouteQueueIsWorkerSteps(s: State, final: bool) returns (n: nat)
    requires s.worker == Swapping(final)
    ensures var log := Fifo(s.shared.positions, s.shared.prices, s.shared.limits, s.shared.queue);
      var next := Works(s, n);
      && next.worker == (if final then Exited else AtLoopHead) && next.log == s.log + log
      && next.shared == s.shared.(queue := [], positions := ReplayFrom(s.shared.positions, log))
  {
    var m := WorkerDecidesBatch(Worked(s), s.shared.queue, final);
    WorksAdd(s, 1, m);
    assert Works(s, 1) == Worked(s);
    n := 1 + m;
  }

  lemma TwoSteps(s: State, t: nat, request: Request, order: Order)
    requires t !in s.submissions && MayBegin(s.shared, request) && order == NextOrder(s.shared, request)
    ensures var next := Step(Step(s, Begin(t, request)), Number(t));
      && t in next.submissions && next.submissions[t] == Numbered(order)
      && next.shared == s.shared.(issued := order.serial)
  {
  }

  lemma ThreeSteps(s: State, t: nat, order: Order)
    requires t in s.submissions && s.submissions[t] == Numbered(order)
    ensures Step(Step(Step(s, Check(t)), Push(t)), Return(t)).shared
         == if Accepts(s.shared.positions, s.shared.prices, s.shared.limits, order)
            then s.shared.(queue := s.shared.queue + [order]) else s.shared
  {
  }
}
