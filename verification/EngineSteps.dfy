/**
 The engine's threads as a step system (src/trading/engine.cpp). Every critical section, atomic access
 and thread-local decision is one step; a run is any sequence of steps, so a statement about all runs is
 a statement about all interleavings of submitters, price and limit updates, the owner and the worker.
 */
module EngineSteps {
  import opened Common
  import opened Decimals
  import opened Portfolio

  datatype Request = Request(symbol: string, quantity: real, limitPrice: Option<real>, side: Side)

  /** The members that several threads touch. `issued` counts the order ids handed out. */
  datatype Shared = Shared(
    running: bool, queue: seq<Order>, positions: Book, prices: Prices, limits: Limits, issued: nat)

  /** How far a call of `submitOrder` has got. */
  datatype Submission =
    | Validated(request: Request)
    | Numbered(order: Order)
    | Approved(order: Order)
    | Queued(order: Order)

  /** Where the worker is. `Checked` lies between the two critical sections of an order, with what the check saw. */
  datatype Worker =
    | Exited
    | AtLoopHead
    | Swapping(final: bool)
    | Routing(batch: seq<Order>, final: bool)
    | Checked(order: Order, rest: seq<Order>, final: bool, prices: Prices, limits: Limits)

  /** What became of an order the worker looked at, with the prices and limits its check saw. */
  datatype Outcome =
    | Executed(order: Order, prices: Prices, limits: Limits)
    | Rejected(order: Order, prices: Prices, limits: Limits)

  /**
   `stopping` is the owner waiting for the worker. The rest is history: the orders pushed, the worker's
   decisions, the success receipts, and the calls that were in flight at the last final drain.
   */
  datatype State = State(
    shared: Shared, worker: Worker, stopping: bool, submissions: map<nat, Submission>,
    pushed: seq<Order>, log: seq<Outcome>, receipts: seq<Order>, atDrain: set<nat>)

  datatype Action =
    | SetPrice(symbol: string, price: real)
    | SetLimits(limits: Limits)
    | Start
    | Stop
    | Join
    | Begin(caller: nat, request: Request)
    | Number(caller: nat)
    | Check(caller: nat)
    | Push(caller: nat)
    | Return(caller: nat)
    | Work

  // The steps.

  function PriceSet(sh: Shared, symbol: string, price: real): Shared {
    if |symbol| == 0 || price <= 0.0 then sh else sh.(prices := sh.prices[symbol := price])
  }

  predicate MayBegin(sh: Shared, r: Request) {
    sh.running && |r.symbol| > 0 && r.quantity > 0.0
  }

  function NextOrder(sh: Shared, r: Request): Order {
    Order(sh.issued + 1, r.symbol, r.quantity, r.limitPrice, r.side)
  }

  /** The calls between their running check and their push. */
  function InFlight(submissions: map<nat, Submission>): set<nat> {
    set t | t in submissions && !submissions[t].Queued?
  }

  ghost function Worked(s: State): State {
    match s.worker
    case Exited => s
    case AtLoopHead => s.(worker := Swapping(!s.shared.running))
    case Swapping(final) =>
      s.(worker := Routing(s.shared.queue, final), shared := s.shared.(queue := []),
         atDrain := if final then InFlight(s.submissions) else s.atDrain)
    case Routing(batch, final) =>
      if |batch| == 0 then s.(worker := if final then Exited else AtLoopHead)
      else if Accepts(s.shared.positions, s.shared.prices, s.shared.limits, batch[0]) then
        s.(worker := Checked(batch[0], batch[1..], final, s.shared.prices, s.shared.limits))
      else
        s.(worker := Routing(batch[1..], final),
           log := s.log + [Rejected(batch[0], s.shared.prices, s.shared.limits)])
    case Checked(o, rest, final, prices, limits) =>
      s.(worker := Routing(rest, final),
         shared := s.shared.(positions := Applied(s.shared.positions, o)),
         log := s.log + [Executed(o, prices, limits)])
  }

  ghost function Submitted(s: State, t: nat, a: Action): State
    requires t in s.submissions
  {
    match (a, s.submissions[t])
    case (Number(_), Validated(r)) =>
      s.(submissions := s.submissions[t := Numbered(NextOrder(s.shared, r))],
         shared := s.shared.(issued := s.shared.issued + 1))
    case (Check(_), Numbered(o)) =>
      if Accepts(s.shared.positions, s.shared.prices, s.shared.limits, o)
      then s.(submissions := s.submissions[t := Approved(o)])
      else s.(submissions := s.submissions - {t})
    case (Push(_), Approved(o)) =>
      s.(submissions := s.submissions[t := Queued(o)],
         shared := s.shared.(queue := s.shared.queue + [o]), pushed := s.pushed + [o])
    case (Return(_), Queued(o)) =>
      s.(submissions := s.submissions - {t}, receipts := s.receipts + [o])
    case _ => s
  }

  /** One step. An action that is not possible leaves the state as it is. */
  ghost function Step(s: State, a: Action): State {
    match a
    case SetPrice(symbol, price) => s.(shared := PriceSet(s.shared, symbol, price))
    case SetLimits(limits) => s.(shared := s.shared.(limits := limits))
    case Start =>
      if s.stopping || s.shared.running then s
      else s.(shared := s.shared.(running := true), worker := AtLoopHead)
    case Stop =>
      if s.stopping || !s.shared.running then s
      else s.(shared := s.shared.(running := false), stopping := true)
    case Join => if s.stopping && s.worker.Exited? then s.(stopping := false) else s
    case Begin(t, r) =>
      if t in s.submissions || !MayBegin(s.shared, r) then s
      else s.(submissions := s.submissions[t := Validated(r)])
    case Work => Worked(s)
    case _ => if a.caller in s.submissions then Submitted(s, a.caller, a) else s
  }

  ghost function Run(s: State, actions: seq<Action>): State {
    if |actions| == 0 then s else Step(Run(s, actions[..|actions| - 1]), actions[|actions| - 1])
  }

  /** A new engine. */
  function Init(limits: Limits): State {
    State(Shared(false, [], map[], map[], limits, 0), Exited, false, map[], [], [], [], {})
  }

  // The worker's history.

  /** The book after the executed orders of a history. */
  function ReplayFrom(book: Book, log: seq<Outcome>): Book
    decreases |log|
  {
    if |log| == 0 then book else
      var before := ReplayFrom(book, log[..|log| - 1]);
      var last := log[|log| - 1];
      if last.Executed? then Applied(before, last.order) else before
  }

  /** The book that a history builds up from nothing. */
  function Replay(log: seq<Outcome>): Book {
    ReplayFrom(map[], log)
  }

  function Orders(log: seq<Outcome>): (os: seq<Order>)
    ensures |os| == |log|
  {
    seq(|log|, i requires 0 <= i < |log| => log[i].order)
  }

  function Held(w: Worker): seq<Order> {
    match w
    case Routing(batch, _) => batch
    case Checked(o, rest, _, _, _) => [o] + rest
    case _ => []
  }

  /** The worker decided order `k` by the rules, on the book it had then. */
  ghost predicate DecidedByRules(log: seq<Outcome>, k: nat)
    requires k < |log|
  {
    log[k].Executed? <==> Accepts(Replay(log[..k]), log[k].prices, log[k].limits, log[k].order)
  }

  /** Only the worker writes positions, so a check still holds when its order is applied. */
  ghost predicate RiskInv(s: State) {
    && s.shared.positions == Replay(s.log)
    && (forall k :: 0 <= k < |s.log| ==> DecidedByRules(s.log, k))
    && (s.worker.Checked? ==> Accepts(s.shared.positions, s.worker.prices, s.worker.limits, s.worker.order))
  }

  lemma ReplayFromSnoc(book: Book, log: seq<Outcome>, o: Outcome)
    ensures ReplayFrom(book, log + [o])
         == if o.Executed? then Applied(ReplayFrom(book, log), o.order) else ReplayFrom(book, log)
  {
    assert (log + [o])[..|log|] == log;
  }

  lemma ReplaySnoc(log: seq<Outcome>, o: Outcome)
    ensures Replay(log + [o]) == if o.Executed? then Applied(Replay(log), o.order) else Replay(log)
  {
    ReplayFromSnoc(map[], log, o);
  }

  lemma DecidedSnoc(log: seq<Outcome>, o: Outcome)
    requires forall k :: 0 <= k < |log| ==> DecidedByRules(log, k)
    requires o.Executed? <==> Accepts(Replay(log), o.prices, o.limits, o.order)
    ensures forall k :: 0 <= k < |log + [o]| ==> DecidedByRules(log + [o], k)
  {
    forall k | 0 <= k < |log + [o]| ensures DecidedByRules(log + [o], k) {
      assert (log + [o])[..k] == log[..k];
      if k == |log| {
        assert log[..k] == log;
      } else {
        assert DecidedByRules(log, k);
      }
    }
  }

  lemma WorkIsWorked(s: State, a: Action)
    requires a.Work?
    ensures Step(s, a) == Worked(s)
  {
  }

  /** Only the worker's steps decide orders and write positions; only a start moves the worker. */
  lemma OthersKeepDecisions(s: State, a: Action)
    requires !a.Work?
    ensures Step(s, a).log == s.log && Step(s, a).shared.positions == s.shared.positions
    ensures Step(s, a).worker == s.worker || Step(s, a).worker.AtLoopHead?
  {
  }

  lemma RiskStep(s: State, a: Action)
    requires RiskInv(s)
    ensures RiskInv(Step(s, a))
  {
    if a.Work? {
      WorkIsWorked(s, a);
      RiskWork(s);
    } else {
      OthersKeepDecisions(s, a);
    }
  }

  lemma RiskWork(s: State)
    requires RiskInv(s)
    ensures RiskInv(Worked(s))
  {
    match s.worker
    case Exited =>
    case AtLoopHead =>
    case Swapping(final) =>
    case Routing(batch, final) =>
      if |batch| > 0 && !Accepts(s.shared.positions, s.shared.prices, s.shared.limits, batch[0]) {
        RiskDecides(s, Rejected(batch[0], s.shared.prices, s.shared.limits), Worked(s));
      }
    case Checked(o, rest, final, prices, limits) =>
      RiskDecides(s, Executed(o, prices, limits), Worked(s));
  }

  /** The worker decides one order. */
  lemma RiskDecides(s: State, o: Outcome, next: State)
    requires RiskInv(s) && next.log == s.log + [o] && !next.worker.Checked?
    requires o.Executed? <==> Accepts(s.shared.positions, o.prices, o.limits, o.order)
    requires next.shared.positions == if o.Executed? then Applied(s.shared.positions, o.order) else s.shared.positions
    ensures RiskInv(next)
  {
    ReplaySnoc(s.log, o);
    DecidedSnoc(s.log, o);
  }

  lemma {:induction false} RiskAlways(limits: Limits, actions: seq<Action>)
    ensures RiskInv(Run(Init(limits), actions))
  {
    if |actions| > 0 {
      RiskAlways(limits, actions[..|actions| - 1]);
      RiskStep(Run(Init(limits), actions[..|actions| - 1]), actions[|actions| - 1]);
    }
  }

  // Safety of the portfolio.

  /**
   Just after any order of any run was applied, if the exposure limit its check saw was on, the whole
   portfolio at the prices its check saw was within that limit; and its symbol's position was within the
   position limit its check saw, if that was on.
   */
  lemma SafeAfterEveryExecution(limits: Limits, actions: seq<Action>, k: nat)
    requires var log := Run(Init(limits), actions).log; k < |log| && log[k].Executed?
    ensures var log := Run(Init(limits), actions).log;
      var book, seen := Replay(log[..k + 1]), log[k];
      && (seen.limits.maxExposure > 0.0 ==>
            AllPriced(book, seen.prices) && Exposure(book, seen.prices) <= seen.limits.maxExposure)
      && (seen.limits.maxPosition > 0.0 ==> Abs(Position(book, seen.order.symbol)) <= seen.limits.maxPosition)
  {
    RiskAlways(limits, actions);
    var log := Run(Init(limits), actions).log;
    assert DecidedByRules(log, k);
    assert log[..k + 1] == log[..k] + [log[k]];
    ReplaySnoc(log[..k], log[k]);
  }

  /** `k` is the last executed order on the symbol; on any symbol, when none is given. */
  predicate LastExecuted(log: seq<Outcome>, symbol: Option<string>, k: nat) {
    && k < |log| && log[k].Executed? && (symbol.Some? ==> log[k].order.symbol == symbol.value)
    && forall j :: k < j < |log| ==> !(log[j].Executed? && (symbol.Some? ==> log[j].order.symbol == symbol.value))
  }

  lemma {:induction false} UnchangedSince(log: seq<Outcome>, symbol: Option<string>, k: nat)
    requires LastExecuted(log, symbol, k)
    ensures match symbol
      case Some(name) => Position(Replay(log), name) == Position(Replay(log[..k + 1]), name)
      case None => Replay(log) == Replay(log[..k + 1])
  {
    var n := |log| - 1;
    if k < n {
      var before := log[..n];
      assert before[..k + 1] == log[..k + 1];
      UnchangedSince(before, symbol, k);
    } else {
      assert log[..k + 1] == log;
    }
  }

  /** In every reachable state the portfolio is within the exposure limit the last execution was checked against. */
  lemma ExposureAlwaysBounded(limits: Limits, actions: seq<Action>, k: nat)
    requires LastExecuted(Run(Init(limits), actions).log, None, k)
    ensures var s := Run(Init(limits), actions);
      s.log[k].limits.maxExposure > 0.0 ==>
        && AllPriced(s.shared.positions, s.log[k].prices)
        && Exposure(s.shared.positions, s.log[k].prices) <= s.log[k].limits.maxExposure
  {
    SafeAfterEveryExecution(limits, actions, k);
    UnchangedSince(Run(Init(limits), actions).log, None, k);
    RiskAlways(limits, actions);
  }

  /** In every reachable state a symbol's position is within the limit its last execution was checked against. */
  lemma PositionAlwaysBounded(limits: Limits, actions: seq<Action>, symbol: string, k: nat)
    requires LastExecuted(Run(Init(limits), actions).log, Some(symbol), k)
    ensures var s := Run(Init(limits), actions);
      s.log[k].limits.maxPosition > 0.0 ==>
        Abs(Position(s.shared.positions, symbol)) <= s.log[k].limits.maxPosition
  {
    SafeAfterEveryExecution(limits, actions, k);
    UnchangedSince(Run(Init(limits), actions).log, Some(symbol), k);
    RiskAlways(limits, actions);
  }

  predicate KeepsLimits(actions: seq<Action>) {
    forall i :: 0 <= i < |actions| ==> !actions[i].SetLimits?
  }

  ghost predicate LimitsSeen(s: State, limits: Limits) {
    && s.shared.limits == limits
    && (s.worker.Checked? ==> s.worker.limits == limits)
    && forall k :: 0 <= k < |s.log| ==> s.log[k].limits == limits
  }

  lemma {:induction false} LimitsAreSeen(limits: Limits, actions: seq<Action>)
    requires KeepsLimits(actions)
    ensures LimitsSeen(Run(Init(limits), actions), limits)
  {
    if |actions| > 0 {
      LimitsAreSeen(limits, actions[..|actions| - 1]);
      LimitsStep(Run(Init(limits), actions[..|actions| - 1]), actions[|actions| - 1], limits);
    }
  }

  lemma LimitsStep(s: State, a: Action, limits: Limits)
    requires LimitsSeen(s, limits) && !a.SetLimits?
    ensures LimitsSeen(Step(s, a), limits)
  {
    if a.Work? {
      WorkIsWorked(s, a);
      LimitsWork(s, limits);
    }
  }

  lemma LimitsWork(s: State, limits: Limits)
    requires LimitsSeen(s, limits)
    ensures LimitsSeen(Worked(s), limits)
  {
  }

  lemma {:induction false} FindLastExecuted(log: seq<Outcome>, symbol: string) returns (k: nat)
    requires Position(Replay(log), symbol) != 0.0
    ensures LastExecuted(log, Some(symbol), k)
  {
    var n := |log| - 1;
    if log[n].Executed? && log[n].order.symbol == symbol {
      k := n;
    } else {
      k := FindLastExecuted(log[..n], symbol);
    }
  }

  /** With a fixed position limit no symbol ever exceeds it, however many orders passed the check at submission. */
  lemma FixedLimitNeverExceeded(limits: Limits, actions: seq<Action>, symbol: string)
    requires limits.maxPosition > 0.0 && KeepsLimits(actions)
    ensures Abs(Position(Run(Init(limits), actions).shared.positions, symbol)) <= limits.maxPosition
  {
    var s := Run(Init(limits), actions);
    RiskAlways(limits, actions);
    LimitsAreSeen(limits, actions);
    if Position(s.shared.positions, symbol) != 0.0 {
      var k := FindLastExecuted(s.log, symbol);
      PositionAlwaysBounded(limits, actions, symbol, k);
    }
  }

  /** The quantities of the executed buys of a symbol, added up. */
  function Bought(log: seq<Outcome>, symbol: string): real {
    if |log| == 0 then 0.0 else
      var last := log[|log| - 1];
      Bought(log[..|log| - 1], symbol)
      + if last.Executed? && last.order.symbol == symbol && last.order.side == Buy then last.order.quantity else 0.0
  }

  /** The quantities of the executed sells of a symbol, added up. */
  function Sold(log: seq<Outcome>, symbol: string): real {
    if |log| == 0 then 0.0 else
      var last := log[|log| - 1];
      Sold(log[..|log| - 1], symbol)
      + if last.Executed? && last.order.symbol == symbol && last.order.side == Sell then last.order.quantity else 0.0
  }

  lemma {:induction false} ReplayIsNet(log: seq<Outcome>, symbol: string)
    ensures Position(Replay(log), symbol) == Bought(log, symbol) - Sold(log, symbol)
    ensures symbol in Replay(log) <==> exists k :: 0 <= k < |log| && log[k].Executed? && log[k].order.symbol == symbol
  {
    if |log| > 0 {
      var n := |log| - 1;
      ReplayIsNet(log[..n], symbol);
      AppliedPosition(Replay(log[..n]), log[n].order);
      if symbol in Replay(log[..n]) {
        var k :| 0 <= k < n && log[..n][k].Executed? && log[..n][k].order.symbol == symbol;
        assert log[k] == log[..n][k];
      }
      if k :| 0 <= k < |log| && log[k].Executed? && log[k].order.symbol == symbol {
        assert k < n ==> log[..n][k] == log[k];
      }
    }
  }

  /** In every reachable state a position is what was bought of its symbol less what was sold. */
  lemma PositionsAreSignedSums(limits: Limits, actions: seq<Action>, symbol: string)
    ensures var s := Run(Init(limits), actions);
      && (if symbol in s.shared.positions then s.shared.positions[symbol] else 0.0)
         == Bought(s.log, symbol) - Sold(s.log, symbol)
      && (symbol in s.shared.positions <==>
            exists k :: 0 <= k < |s.log| && s.log[k].Executed? && s.log[k].order.symbol == symbol)
  {
    RiskAlways(limits, actions);
    ReplayIsNet(Run(Init(limits), actions).log, symbol);
  }

  // Conservation of orders.

  /** The orders pushed are, in order, those decided, those the worker holds, and those in the queue. */
  ghost predicate FlowInv(s: State) {
    s.pushed == Orders(s.log) + Held(s.worker) + s.shared.queue
  }

  /** Serial numbers: handed out once each, and kept apart between the orders pushed and the calls in flight. */
  ghost predicate SerialInv(s: State) {
    Serials(s.pushed, s.submissions, s.shared.issued)
  }

  ghost predicate Serials(pushed: seq<Order>, calls: map<nat, Submission>, issued: nat) {
    && (forall i :: 0 <= i < |pushed| ==> 1 <= pushed[i].serial <= issued)
    && (forall i, j :: 0 <= i < j < |pushed| ==> pushed[i].serial != pushed[j].serial)
    && (forall t :: HasOrder(calls, t) ==> 1 <= SerialOf(calls, t) <= issued)
    && (forall t, i :: HasOrder(calls, t) && 0 <= i < |pushed| ==> SerialOf(calls, t) != pushed[i].serial)
    && (forall t, u :: t != u && HasOrder(calls, t) && HasOrder(calls, u) ==> SerialOf(calls, t) != SerialOf(calls, u))
  }

  /** The call has an order that is not pushed yet. */
  ghost predicate HasOrder(calls: map<nat, Submission>, t: nat) {
    t in calls && (calls[t].Numbered? || calls[t].Approved?)
  }

  ghost function SerialOf(calls: map<nat, Submission>, t: nat): nat
    requires HasOrder(calls, t)
  {
    calls[t].order.serial
  }

  /** Nobody is told of success before the order is pushed. */
  ghost predicate ReceiptInv(s: State) {
    && (forall t <- s.submissions :: s.submissions[t].Queued? ==> s.submissions[t].order in s.pushed)
    && (forall o <- s.receipts :: o in s.pushed)
  }

  lemma FlowStep(s: State, a: Action)
    requires FlowInv(s) && PhaseInv(s)
    ensures FlowInv(Step(s, a))
  {
    if a.Work? {
      WorkIsWorked(s, a);
      FlowWork(s);
    } else if a.Push? && a.caller in s.submissions && s.submissions[a.caller].Approved? {
      var o := s.submissions[a.caller].order;
      assert s.pushed + [o] == Orders(s.log) + Held(s.worker) + (s.shared.queue + [o]);
    }
  }

  lemma FlowWork(s: State)
    requires FlowInv(s)
    ensures FlowInv(Worked(s))
  {
    if s.worker.Routing? && |s.worker.batch| > 0 {
      FlowRoute(s, s.worker.batch);
    } else if s.worker.Checked? {
      OneDecided(s.log, Executed(s.worker.order, s.worker.prices, s.worker.limits), s.worker.rest, s.shared.queue);
    }
  }

  lemma FlowRoute(s: State, batch: seq<Order>)
    requires FlowInv(s) && s.worker.Routing? && batch == s.worker.batch && |batch| > 0
    ensures FlowInv(Worked(s))
  {
    assert [batch[0]] + batch[1..] == batch;
    OneDecided(s.log, Rejected(batch[0], s.shared.prices, s.shared.limits), batch[1..], s.shared.queue);
  }

  lemma OneDecided(log: seq<Outcome>, o: Outcome, rest: seq<Order>, queue: seq<Order>)
    ensures Orders(log + [o]) + rest + queue == Orders(log) + ([o.order] + rest) + queue
  {
    OrdersSnoc(log, o);
  }

  lemma SerialStep(s: State, a: Action)
    requires SerialInv(s)
    ensures SerialInv(Step(s, a))
  {
    if a.Number? && a.caller in s.submissions && s.submissions[a.caller].Validated? {
      SerialsNumber(s.pushed, s.submissions, s.shared.issued, a.caller,
                    NextOrder(s.shared, s.submissions[a.caller].request));
    } else if a.Push? && HasOrder(s.submissions, a.caller) && s.submissions[a.caller].Approved? {
      SerialsPush(s.pushed, s.submissions, s.shared.issued, a.caller, s.submissions[a.caller].order);
    } else {
      NoNewOrder(s, a);
      SerialsFewer(s.pushed, s.submissions, s.shared.issued, Step(s, a).submissions);
    }
  }

  lemma NoNewOrder(s: State, a: Action)
    requires a.Number? && a.caller in s.submissions ==> !s.submissions[a.caller].Validated?
    requires a.Push? && a.caller in s.submissions ==> !s.submissions[a.caller].Approved?
    ensures Step(s, a).pushed == s.pushed && Step(s, a).shared.issued == s.shared.issued
    ensures forall t :: HasOrder(Step(s, a).submissions, t) ==>
              HasOrder(s.submissions, t) && Step(s, a).submissions[t].order == s.submissions[t].order
  {
  }

  /** A call takes the next serial number. */
  lemma SerialsNumber(pushed: seq<Order>, calls: map<nat, Submission>, issued: nat, t: nat, o: Order)
    requires Serials(pushed, calls, issued) && o.serial == issued + 1
    ensures Serials(pushed, calls[t := Numbered(o)], issued + 1)
  {
    var next := calls[t := Numbered(o)];
    assert forall u :: u != t && HasOrder(next, u) ==> HasOrder(calls, u) && SerialOf(next, u) == SerialOf(calls, u);
  }

  /** A call's order moves from the call to the orders pushed. */
  lemma SerialsPush(pushed: seq<Order>, calls: map<nat, Submission>, issued: nat, t: nat, o: Order)
    requires Serials(pushed, calls, issued) && HasOrder(calls, t) && o == calls[t].order
    ensures Serials(pushed + [o], calls[t := Queued(o)], issued)
  {
    var next := calls[t := Queued(o)];
    assert SerialOf(calls, t) == o.serial;
    assert forall u :: HasOrder(next, u) ==> u != t && HasOrder(calls, u) && SerialOf(next, u) == SerialOf(calls, u);
  }

  /** No call gets an order it did not have. */
  lemma SerialsFewer(pushed: seq<Order>, calls: map<nat, Submission>, issued: nat, next: map<nat, Submission>)
    requires Serials(pushed, calls, issued)
    requires forall t :: HasOrder(next, t) ==> HasOrder(calls, t) && next[t].order == calls[t].order
    ensures Serials(pushed, next, issued)
  {
    assert forall u :: HasOrder(next, u) ==> HasOrder(calls, u) && SerialOf(next, u) == SerialOf(calls, u);
  }

  lemma ReceiptStep(s: State, a: Action)
    requires ReceiptInv(s)
    ensures ReceiptInv(Step(s, a))
  {
  }

  // Starting, stopping and draining.

  /** The worker has seen the engine stopped. */
  predicate Final(w: Worker) {
    match w
    case Exited => true
    case AtLoopHead => false
    case Swapping(final) => final
    case Routing(_, final) => final
    case Checked(_, _, final, _, _) => final
  }

  /** The worker is past its final swap, or not running at all. */
  predicate Drained(w: Worker) {
    Final(w) && !w.Swapping?
  }

  ghost predicate PhaseInv(s: State) {
    && (s.shared.running ==> !s.stopping)
    && (Final(s.worker) ==> !s.shared.running)
    && (!s.shared.running && !s.stopping ==> s.worker.Exited?)
  }

  /** After the final swap only the calls that were in flight then can push, and only they can fill the queue. */
  ghost predicate DrainInv(s: State) {
    Drained(s.worker) ==>
      && InFlight(s.submissions) <= s.atDrain
      && (s.atDrain == {} ==> s.shared.queue == [])
  }

  lemma PhaseStep(s: State, a: Action)
    requires PhaseInv(s)
    ensures PhaseInv(Step(s, a))
  {
  }

  lemma DrainStep(s: State, a: Action)
    requires PhaseInv(s) && DrainInv(s)
    ensures DrainInv(Step(s, a))
  {
    var next := Step(s, a);
    if Drained(next.worker) {
      if a.Push? && a.caller in s.submissions && s.submissions[a.caller].Approved? {
        assert a.caller in InFlight(s.submissions);
      }
      if !a.Work? {
        assert InFlight(next.submissions) <= InFlight(s.submissions);
      }
    }
  }

  lemma {:induction false} BookkeepingAlways(limits: Limits, actions: seq<Action>)
    ensures var s := Run(Init(limits), actions);
      PhaseInv(s) && DrainInv(s) && FlowInv(s) && SerialInv(s) && ReceiptInv(s)
  {
    if |actions| > 0 {
      var before, a := actions[..|actions| - 1], actions[|actions| - 1];
      BookkeepingAlways(limits, before);
      BookkeepingStep(Run(Init(limits), before), a);
    }
  }

  lemma BookkeepingStep(s: State, a: Action)
    requires PhaseInv(s) && DrainInv(s) && FlowInv(s) && SerialInv(s) && ReceiptInv(s)
    ensures PhaseInv(Step(s, a)) && DrainInv(Step(s, a))
    ensures FlowInv(Step(s, a)) && SerialInv(Step(s, a)) && ReceiptInv(Step(s, a))
  {
    PhaseStep(s, a);
    DrainStep(s, a);
    FlowStep(s, a);
    SerialStep(s, a);
    ReceiptStep(s, a);
  }

  predicate WasExecuted(log: seq<Outcome>, o: Order) {
    exists k :: 0 <= k < |log| && log[k].Executed? && log[k].order == o
  }

  predicate WasRejected(log: seq<Outcome>, o: Order) {
    exists k :: 0 <= k < |log| && log[k].Rejected? && log[k].order == o
  }

  function One(b: bool): nat {
    if b then 1 else 0
  }

  /** In every reachable state an order with a success receipt is in exactly one of the four places. */
  lemma ReceiptInOnePlace(limits: Limits, actions: seq<Action>, o: Order)
    requires o in Run(Init(limits), actions).receipts
    ensures var s := Run(Init(limits), actions);
      One(o in s.shared.queue) + One(o in Held(s.worker)) + One(WasExecuted(s.log, o)) + One(WasRejected(s.log, o)) == 1
  {
    BookkeepingAlways(limits, actions);
    var s := Run(Init(limits), actions);
    PushedInOnePlace(s.pushed, s.log, Held(s.worker), s.shared.queue, o);
  }

  lemma PushedInOnePlace(pushed: seq<Order>, log: seq<Outcome>, held: seq<Order>, queue: seq<Order>, o: Order)
    requires pushed == Orders(log) + held + queue && o in pushed
    requires forall i, j :: 0 <= i < j < |pushed| ==> pushed[i].serial != pushed[j].serial
    ensures One(o in queue) + One(o in held) + One(WasExecuted(log, o)) + One(WasRejected(log, o)) == 1
  {
    InOnePart(Orders(log), held, queue, o);
    assert forall i, j :: 0 <= i < j < |log| ==> pushed[i].serial != pushed[j].serial;
    assert forall k :: 0 <= k < |log| ==> pushed[k] == log[k].order;
    DecidedOnce(log, o);
  }

  lemma InOnePart(a: seq<Order>, b: seq<Order>, c: seq<Order>, o: Order)
    requires o in a + b + c
    requires forall i, j :: 0 <= i < j < |a + b + c| ==> (a + b + c)[i].serial != (a + b + c)[j].serial
    ensures One(o in a) + One(o in b) + One(o in c) == 1
  {
    var all := a + b + c;
    assert forall k :: 0 <= k < |a| ==> all[k] == a[k];
    assert forall k :: 0 <= k < |b| ==> all[|a| + k] == b[k];
    assert forall k :: 0 <= k < |c| ==> all[|a| + |b| + k] == c[k];
  }

  lemma DecidedOnce(log: seq<Outcome>, o: Order)
    requires forall i, j :: 0 <= i < j < |log| ==> log[i].order.serial != log[j].order.serial
    ensures One(WasExecuted(log, o)) + One(WasRejected(log, o)) == One(o in Orders(log))
  {
    assert forall k :: 0 <= k < |log| ==> Orders(log)[k] == log[k].order;
    if k :| 0 <= k < |log| && log[k].order == o {
      assert Orders(log)[k] == o;
      assert forall j :: 0 <= j < |log| && log[j].order == o ==> j == k;
      assert log[k].Executed? || log[k].Rejected?;
    }
  }

  /** The id of an order, printed from a 64-bit counter. */
  function OrderId(serial: nat): string {
    "ORD-" + Decimal(serial % TWO_64)
  }

  lemma SameOrderId(a: nat, b: nat)
    ensures OrderId(a) == OrderId(b) <==> a % TWO_64 == b % TWO_64
  {
    if OrderId(a) == OrderId(b) {
      assert OrderId(a)[4..] == Decimal(a % TWO_64) && OrderId(b)[4..] == Decimal(b % TWO_64);
      DecimalInjective(a % TWO_64, b % TWO_64);
    }
  }

  /** The step gives a call an order id. */
  predicate TakesId(s: State, a: Action) {
    a.Number? && a.caller in s.submissions && s.submissions[a.caller].Validated?
  }

  /** The number of the order that such a step makes. */
  function SerialTaken(s: State, a: Action): (serial: nat)
    requires TakesId(s, a)
  {
    NextOrder(s.shared, s.submissions[a.caller].request).serial
  }

  lemma IssuedStep(s: State, a: Action)
    ensures Step(s, a).shared.issued == s.shared.issued + if TakesId(s, a) then 1 else 0
  {
  }

  lemma {:induction false} IssuedGrows(limits: Limits, actions: seq<Action>, i: nat)
    requires i <= |actions|
    ensures Run(Init(limits), actions[..i]).shared.issued <= Run(Init(limits), actions).shared.issued
  {
    if i == |actions| {
      assert actions[..i] == actions;
    } else {
      var before := actions[..|actions| - 1];
      assert actions[..i] == before[..i];
      IssuedGrows(limits, before, i);
      IssuedStep(Run(Init(limits), before), actions[|actions| - 1]);
    }
  }

  /**
   Until the 64-bit counter wraps, no two ids handed out in a run are the same, whatever became of their
   orders: rejected at submission, pushed, or still with the caller. The numbers themselves never repeat.
   */
  lemma OrderIdsAreUnique(limits: Limits, actions: seq<Action>, i: nat, j: nat)
    requires i < j < |actions|
    requires TakesId(Run(Init(limits), actions[..i]), actions[i])
    requires TakesId(Run(Init(limits), actions[..j]), actions[j])
    ensures var first := SerialTaken(Run(Init(limits), actions[..i]), actions[i]);
      var second := SerialTaken(Run(Init(limits), actions[..j]), actions[j]);
      && first < second <= Run(Init(limits), actions).shared.issued
      && (Run(Init(limits), actions).shared.issued < TWO_64 ==> OrderId(first) != OrderId(second))
  {
    NumberedFromTo(limits, actions, i, j);
    NumberedFromTo(limits, actions, j, |actions|);
    assert actions[..|actions|] == actions;
    var first := SerialTaken(Run(Init(limits), actions[..i]), actions[i]);
    var second := SerialTaken(Run(Init(limits), actions[..j]), actions[j]);
    if Run(Init(limits), actions).shared.issued < TWO_64 {
      SameOrderId(first, second);
      Unwrapped(first);
      Unwrapped(second);
    }
  }

  lemma NumberedFromTo(limits: Limits, actions: seq<Action>, i: nat, j: nat)
    requires i < j <= |actions| && TakesId(Run(Init(limits), actions[..i]), actions[i])
    ensures SerialTaken(Run(Init(limits), actions[..i]), actions[i]) <= Run(Init(limits), actions[..j]).shared.issued
  {
    RunTo(Init(limits), actions, i + 1);
    IssuedStep(Run(Init(limits), actions[..i]), actions[i]);
    IssuedGrows(limits, actions[..j], i + 1);
    assert actions[..j][..i + 1] == actions[..i + 1];
  }

  /** Until the 64-bit counter wraps, no two orders pushed have the same id. */
  lemma PushedIdsAreUnique(limits: Limits, actions: seq<Action>, i: nat, j: nat)
    requires i < j < |Run(Init(limits), actions).pushed|
    requires Run(Init(limits), actions).shared.issued < TWO_64
    ensures var pushed := Run(Init(limits), actions).pushed;
      OrderId(pushed[i].serial) != OrderId(pushed[j].serial)
  {
    BookkeepingAlways(limits, actions);
    var s := Run(Init(limits), actions);
    IdsDiffer(s.pushed, s.shared.issued, i, j);
  }

  lemma IdsDiffer(pushed: seq<Order>, issued: nat, i: nat, j: nat)
    requires i < j < |pushed| && issued < TWO_64
    requires forall k :: 0 <= k < |pushed| ==> 1 <= pushed[k].serial <= issued
    requires pushed[i].serial != pushed[j].serial
    ensures OrderId(pushed[i].serial) != OrderId(pushed[j].serial)
  {
    SameOrderId(pushed[i].serial, pushed[j].serial);
    Unwrapped(pushed[i].serial);
    Unwrapped(pushed[j].serial);
  }

  lemma Unwrapped(serial: nat)
    requires serial < TWO_64
    ensures serial % TWO_64 == serial
  {
  }

  /**
   When `stop` has returned the worker is gone. If no call was between its running check and its push at the
   final drain, the queue is empty and every order pushed has been executed or rejected.
   */
  lemma StopDrains(limits: Limits, actions: seq<Action>)
    ensures var s := Run(Init(limits), actions);
      && (!s.shared.running && !s.stopping ==> s.worker.Exited?)
      && (s.worker.Exited? && s.atDrain == {} ==> s.shared.queue == [] && s.pushed == Orders(s.log))
  {
    BookkeepingAlways(limits, actions);
  }

  /** An order pushed after the worker has exited stays in the queue until the engine is started again. */
  lemma {:induction false} StrandedUntilRestart(s: State, actions: seq<Action>)
    requires s.worker.Exited? && PhaseInv(s)
    requires forall i :: 0 <= i < |actions| ==> !actions[i].Start?
    ensures var next := Run(s, actions);
      next.worker.Exited? && PhaseInv(next) && s.shared.queue <= next.shared.queue && next.log == s.log
  {
    if |actions| > 0 {
      var before, a := actions[..|actions| - 1], actions[|actions| - 1];
      StrandedUntilRestart(s, before);
      ExitedStep(Run(s, before), a);
    }
  }

  lemma ExitedStep(s: State, a: Action)
    requires s.worker.Exited? && PhaseInv(s) && !a.Start?
    ensures var next := Step(s, a);
      next.worker.Exited? && PhaseInv(next) && s.shared.queue <= next.shared.queue && next.log == s.log
  {
    PhaseStep(s, a);
  }

  predicate WithoutStart(actions: seq<Action>) {
    forall i :: 0 <= i < |actions| ==> !actions[i].Start?
  }

  /** With nobody in flight, a stopped engine's queue stays empty. */
  lemma {:induction false} QuietStaysEmpty(s: State, actions: seq<Action>)
    requires s.worker.Exited? && PhaseInv(s) && s.shared.queue == [] && InFlight(s.submissions) == {}
    requires WithoutStart(actions)
    ensures var next := Run(s, actions);
      next.worker.Exited? && PhaseInv(next) && next.shared.queue == [] && InFlight(next.submissions) == {}
  {
    if |actions| > 0 {
      var before, a := actions[..|actions| - 1], actions[|actions| - 1];
      QuietStaysEmpty(s, before);
      QuietStep(Run(s, before), a);
    }
  }

  lemma QuietStep(s: State, a: Action)
    requires s.worker.Exited? && PhaseInv(s) && s.shared.queue == [] && InFlight(s.submissions) == {} && !a.Start?
    ensures var next := Step(s, a);
      next.worker.Exited? && PhaseInv(next) && next.shared.queue == [] && InFlight(next.submissions) == {}
  {
    if a.Number? || a.Check? || a.Push? || a.Return? {
      assert a.caller in s.submissions ==> a.caller !in InFlight(s.submissions);
    }
  }

  /** How a call that is in flight gets its order into the queue, whatever point it has reached. */
  function Finish(t: nat): seq<Action> {
    [SetLimits(Limits(0.0, 0.0)), Number(t), Check(t), Push(t)]
  }

  lemma FinishPushes(s: State, t: nat)
    requires t in InFlight(s.submissions)
    ensures Run(s, Finish(t)).shared.queue != []
  {
    var acts := Finish(t);
    assert acts[..0] == [] && acts[..4] == acts;
    RunTo(s, acts, 1);
    RunTo(s, acts, 2);
    NumberLeavesOrder(s, t);
    RunTo(s, acts, 3);
    CheckPasses(Run(s, acts[..2]), t);
    RunTo(s, acts, 4);
    PushFills(Run(s, acts[..3]), t);
  }

  lemma NumberLeavesOrder(s: State, t: nat)
    requires t in InFlight(s.submissions)
    ensures var next := Step(Step(s, SetLimits(Limits(0.0, 0.0))), Number(t));
      HasOrder(next.submissions, t) && next.shared.limits == Limits(0.0, 0.0)
  {
  }

  lemma CheckPasses(s: State, t: nat)
    requires HasOrder(s.submissions, t) && s.shared.limits == Limits(0.0, 0.0)
    ensures var next := Step(s, Check(t)); t in next.submissions && next.submissions[t].Approved?
  {
  }

  lemma PushFills(s: State, t: nat)
    requires t in s.submissions && s.submissions[t].Approved?
    ensures Step(s, Push(t)).shared.queue != []
  {
  }

  /**
   The exact condition: after the worker has exited with an empty queue, some continuation without a new
   start leaves an order in the queue if and only if a call is between its running check and its push.
   */
  lemma StrandingCondition(s: State)
    requires s.worker.Exited? && PhaseInv(s) && s.shared.queue == []
    ensures (exists actions :: WithoutStart(actions) && Run(s, actions).shared.queue != [])
       <==> InFlight(s.submissions) != {}
  {
    if InFlight(s.submissions) != {} {
      var t :| t in InFlight(s.submissions);
      FinishPushes(s, t);
      assert WithoutStart(Finish(t));
    } else {
      forall actions | WithoutStart(actions) ensures Run(s, actions).shared.queue == [] {
        QuietStaysEmpty(s, actions);
      }
    }
  }

  /** A run in which a call is between its check and its push at the final drain. */
  function LatePush(r: Request): seq<Action> {
    [Start, Begin(0, r), Number(0), Check(0), Stop, Work, Work, Work, Join, Push(0), Return(0)]
  }

  /** After that run the engine is stopped, and the caller holds a success receipt for an order left in the queue. */
  lemma LatePushIsStranded(r: Request)
    requires |r.symbol| > 0 && r.quantity > 0.0
    ensures var s := Run(Init(Limits(0.0, 0.0)), LatePush(r));
      !s.shared.running && !s.stopping && s.worker.Exited? && |s.receipts| == 1 && s.shared.queue == s.receipts
  {
    var acts := LatePush(r);
    var s0 := Init(Limits(0.0, 0.0));
    var o := Order(1, r.symbol, r.quantity, r.limitPrice, r.side);
    ApprovedCall(r, o);
    DrainedWorker(r, o);
    RunTo(s0, acts, 10);
    RunTo(s0, acts, 11);
    PushAndReturn(o);
    assert acts[..11] == acts;
  }

  function CallOnly(running: bool, w: Worker, stopping: bool, o: Order, atDrain: set<nat>): State {
    State(Shared(running, [], map[], map[], Limits(0.0, 0.0), 1), w, stopping,
          map[0 := Approved(o)], [], [], [], atDrain)
  }

  lemma ApprovedCall(r: Request, o: Order)
    requires |r.symbol| > 0 && r.quantity > 0.0 && o == Order(1, r.symbol, r.quantity, r.limitPrice, r.side)
    ensures Run(Init(Limits(0.0, 0.0)), LatePush(r)[..4]) == CallOnly(true, AtLoopHead, false, o, {})
  {
    var acts, s0 := LatePush(r), Init(Limits(0.0, 0.0));
    assert acts[..0] == [];
    RunTo(s0, acts, 1);
    RunTo(s0, acts, 2);
    RunTo(s0, acts, 3);
    RunTo(s0, acts, 4);
  }

  lemma DrainedWorker(r: Request, o: Order)
    requires Run(Init(Limits(0.0, 0.0)), LatePush(r)[..4]) == CallOnly(true, AtLoopHead, false, o, {})
    ensures Run(Init(Limits(0.0, 0.0)), LatePush(r)[..9]) == CallOnly(false, Exited, false, o, {0})
  {
    var acts, s0 := LatePush(r), Init(Limits(0.0, 0.0));
    StoppedWorker(r, o);
    StopAndDrain(o);
    RunTo(s0, acts, 7);
    RunTo(s0, acts, 8);
    RunTo(s0, acts, 9);
  }

  lemma StoppedWorker(r: Request, o: Order)
    requires Run(Init(Limits(0.0, 0.0)), LatePush(r)[..4]) == CallOnly(true, AtLoopHead, false, o, {})
    ensures Run(Init(Limits(0.0, 0.0)), LatePush(r)[..6]) == CallOnly(false, Swapping(true), true, o, {})
  {
    StopAndDrain(o);
    RunTo(Init(Limits(0.0, 0.0)), LatePush(r), 5);
    RunTo(Init(Limits(0.0, 0.0)), LatePush(r), 6);
  }

  lemma StopAndDrain(o: Order)
    ensures Step(CallOnly(true, AtLoopHead, false, o, {}), Stop) == CallOnly(false, AtLoopHead, true, o, {})
    ensures Step(CallOnly(false, AtLoopHead, true, o, {}), Work) == CallOnly(false, Swapping(true), true, o, {})
    ensures Step(CallOnly(false, Swapping(true), true, o, {}), Work) == CallOnly(false, Routing([], true), true, o, {0})
    ensures Step(CallOnly(false, Routing([], true), true, o, {0}), Work) == CallOnly(false, Exited, true, o, {0})
    ensures Step(CallOnly(false, Exited, true, o, {0}), Join) == CallOnly(false, Exited, false, o, {0})
  {
    assert InFlight(map[0 := Approved(o)]) == {0};
  }

  lemma PushAndReturn(o: Order)
    ensures var s := Step(Step(CallOnly(false, Exited, false, o, {0}), Push(0)), Return(0));
      !s.shared.running && !s.stopping && s.worker.Exited? && s.receipts == [o] && s.shared.queue == [o]
  {
  }

  lemma RunTo(s: State, actions: seq<Action>, n: nat)
    requires 0 < n <= |actions|
    ensures Run(s, actions[..n]) == Step(Run(s, actions[..n - 1]), actions[n - 1])
  {
    assert actions[..n][..n - 1] == actions[..n - 1];
  }

  // Batching.

  ghost function Decision(book: Book, prices: Prices, limits: Limits, o: Order): Outcome {
    if Accepts(book, prices, limits, o) then Executed(o, prices, limits) else Rejected(o, prices, limits)
  }

  /** One order at a time, first come first served: decide it on the book so far, apply it if it passes. */
  function Fold(book: Book, decide: (Book, Order) -> Outcome, orders: seq<Order>): (log: seq<Outcome>)
    ensures |log| == |orders|
    decreases |orders|
  {
    if |orders| == 0 then [] else
      var n := |orders| - 1;
      var log := Fold(book, decide, orders[..n]);
      log + [decide(ReplayFrom(book, log), orders[n])]
  }

  lemma FoldSnoc(book: Book, decide: (Book, Order) -> Outcome, orders: seq<Order>, o: Order)
    ensures var log := Fold(book, decide, orders);
      Fold(book, decide, orders + [o]) == log + [decide(ReplayFrom(book, log), o)]
  {
    assert (orders + [o])[..|orders|] == orders;
  }

  ghost function ByRules(prices: Prices, limits: Limits): (Book, Order) -> Outcome {
    (book: Book, o: Order) => Decision(book, prices, limits, o)
  }

  /** The sequential processor: check each order on the book so far, apply it if it passes. */
  ghost function Fifo(book: Book, prices: Prices, limits: Limits, orders: seq<Order>): (log: seq<Outcome>)
    ensures |log| == |orders|
  {
    Fold(book, ByRules(prices, limits), orders)
  }

  lemma FifoSnoc(book: Book, prices: Prices, limits: Limits, orders: seq<Order>, o: Order)
    ensures var log := Fifo(book, prices, limits, orders);
      Fifo(book, prices, limits, orders + [o]) == log + [Decision(ReplayFrom(book, log), prices, limits, o)]
  {
    FoldSnoc(book, ByRules(prices, limits), orders, o);
  }

  predicate KeepsMarket(actions: seq<Action>) {
    forall i :: 0 <= i < |actions| ==> !actions[i].SetLimits? && !actions[i].SetPrice?
  }

  /** Since `start`, the worker has done what the sequential processor does on the same orders. */
  ghost predicate FollowsFifo(start: State, s: State) {
    var book, prices, limits := start.shared.positions, start.shared.prices, start.shared.limits;
    && s.shared.prices == prices && s.shared.limits == limits
    && start.log <= s.log
    && s.log[|start.log|..] == Fifo(book, prices, limits, Orders(s.log[|start.log|..]))
    && s.shared.positions == ReplayFrom(book, s.log[|start.log|..])
    && (s.worker.Checked? ==>
          s.worker.prices == prices && s.worker.limits == limits
          && Accepts(s.shared.positions, prices, limits, s.worker.order))
  }

  lemma FifoExtend(book: Book, prices: Prices, limits: Limits, since: seq<Outcome>, o: Outcome)
    requires since == Fifo(book, prices, limits, Orders(since))
    requires o == Decision(ReplayFrom(book, since), prices, limits, o.order)
    ensures since + [o] == Fifo(book, prices, limits, Orders(since + [o]))
  {
    OrdersSnoc(since, o);
    FifoSnoc(book, prices, limits, Orders(since), o.order);
  }

  lemma OrdersSnoc(log: seq<Outcome>, o: Outcome)
    ensures Orders(log + [o]) == Orders(log) + [o.order]
  {
  }

  /** The worker decides one order. */
  lemma FifoDecides(start: State, s: State, o: Outcome, next: State)
    requires FollowsFifo(start, s) && next.log == s.log + [o] && !next.worker.Checked?
    requires next.shared.prices == s.shared.prices && next.shared.limits == s.shared.limits
    requires o == Decision(s.shared.positions, s.shared.prices, s.shared.limits, o.order)
    requires next.shared.positions == if o.Executed? then Applied(s.shared.positions, o.order) else s.shared.positions
    ensures FollowsFifo(start, next)
  {
    var since := s.log[|start.log|..];
    assert next.log[|start.log|..] == since + [o];
    FifoExtend(start.shared.positions, start.shared.prices, start.shared.limits, since, o);
    ReplayFromSnoc(start.shared.positions, since, o);
  }

  lemma FifoWork(start: State, s: State)
    requires FollowsFifo(start, s)
    ensures FollowsFifo(start, Worked(s))
  {
    match s.worker
    case Exited =>
    case AtLoopHead =>
    case Swapping(final) =>
    case Routing(batch, final) =>
      if |batch| > 0 && !Accepts(s.shared.positions, s.shared.prices, s.shared.limits, batch[0]) {
        FifoDecides(start, s, Rejected(batch[0], s.shared.prices, s.shared.limits), Worked(s));
      }
    case Checked(o, rest, final, prices, limits) =>
      FifoDecides(start, s, Executed(o, prices, limits), Worked(s));
  }

  /** Only price and limit updates change the market. */
  lemma OtherStep(s: State, a: Action)
    requires !a.Work? && !a.SetPrice? && !a.SetLimits?
    ensures var next := Step(s, a);
      && next.log == s.log && next.shared.positions == s.shared.positions
      && next.shared.prices == s.shared.prices && next.shared.limits == s.shared.limits
      && (next.worker == s.worker || next.worker.AtLoopHead?)
  {
  }

  lemma FifoOther(start: State, s: State, next: State)
    requires FollowsFifo(start, s)
    requires next.log == s.log && next.shared.positions == s.shared.positions
    requires next.shared.prices == s.shared.prices && next.shared.limits == s.shared.limits
    requires next.worker == s.worker || next.worker.AtLoopHead?
    ensures FollowsFifo(start, next)
  {
  }

  lemma {:induction false} FifoAlways(start: State, actions: seq<Action>)
    requires !start.worker.Checked? && KeepsMarket(actions)
    ensures FollowsFifo(start, Run(start, actions))
  {
    if |actions| == 0 {
      FifoStart(start);
    } else {
      var before, a := actions[..|actions| - 1], actions[|actions| - 1];
      FifoAlways(start, before);
      FifoStep(start, Run(start, before), a);
    }
  }

  lemma FifoStart(start: State)
    requires !start.worker.Checked?
    ensures FollowsFifo(start, start)
  {
  }

  lemma FifoStep(start: State, s: State, a: Action)
    requires FollowsFifo(start, s) && !a.SetPrice? && !a.SetLimits?
    ensures FollowsFifo(start, Step(s, a))
  {
    if a.Work? {
      WorkIsWorked(s, a);
      FifoWork(start, s);
    } else {
      OtherStep(s, a);
      FifoOther(start, s, Step(s, a));
    }
  }

  /**
   From a healthy portfolio, with prices and limits fixed and no order between its check and its update, the
   enabled limits hold for ever, through any interleaving; and the monitor stays silent exactly as long as
   the exposure limit is on or every held symbol is priced.
   */
  lemma HealthyAlways(start: State, actions: seq<Action>)
    requires !start.worker.Checked? && KeepsMarket(actions)
    requires Healthy(start.shared.positions, start.shared.prices, start.shared.limits)
    ensures var t := Run(start, actions).shared;
      && WithinLimits(t.positions, t.prices, t.limits)
      && (Healthy(t.positions, t.prices, t.limits)
          <==> start.shared.limits.maxExposure > 0.0 || AllPriced(t.positions, start.shared.prices))
  {
    FifoAlways(start, actions);
    LimitsHoldAlways(start, actions);
  }

  lemma {:induction false} LimitsHoldAlways(start: State, actions: seq<Action>)
    requires !start.worker.Checked? && KeepsMarket(actions)
    requires WithinLimits(start.shared.positions, start.shared.prices, start.shared.limits)
    ensures WithinLimits(Run(start, actions).shared.positions, start.shared.prices, start.shared.limits)
  {
    if |actions| > 0 {
      var before, a := actions[..|actions| - 1], actions[|actions| - 1];
      LimitsHoldAlways(start, before);
      FifoAlways(start, before);
      LimitsHoldStep(start, Run(start, before), a);
    }
  }

  lemma LimitsHoldStep(start: State, s: State, a: Action)
    requires FollowsFifo(start, s)
    requires WithinLimits(s.shared.positions, start.shared.prices, start.shared.limits)
    ensures WithinLimits(Step(s, a).shared.positions, start.shared.prices, start.shared.limits)
  {
    if a.Work? {
      WorkIsWorked(s, a);
      WorkedPositions(s);
      if s.worker.Checked? {
        AcceptedKeepsLimits(s.shared.positions, start.shared.prices, start.shared.limits, s.worker.order);
      }
    } else {
      OthersKeepDecisions(s, a);
    }
  }

  lemma WorkedPositions(s: State)
    ensures Worked(s).shared.positions
         == if s.worker.Checked? then Applied(s.shared.positions, s.worker.order) else s.shared.positions
  {
  }

  /** Nothing is waiting and nothing is being decided. */
  predicate Settled(s: State) {
    s.shared.queue == [] && Held(s.worker) == []
  }

  /**
   Batching refines first come first served: from any reachable state in which no order is between its check
   and its update, with prices and limits fixed, however the worker cuts the arrivals into batches, its
   decisions and the book are at every moment those of the sequential processor on the orders in order of
   arrival, as far as it has got; and when nothing is waiting it has got to the end.
   */
  lemma BatchingIsFifo(limits: Limits, setup: seq<Action>, actions: seq<Action>)
    requires KeepsMarket(actions) && !Run(Init(limits), setup).worker.Checked?
    ensures var s, t := Run(Init(limits), setup), Run(Init(limits), setup + actions);
      && |s.log| <= |t.log| <= |t.pushed|
      && (Settled(t) ==> |t.log| == |t.pushed|)
      && var decisions := Fifo(s.shared.positions, s.shared.prices, s.shared.limits, t.pushed[|s.log|..|t.log|]);
      t.log == s.log + decisions && t.shared.positions == ReplayFrom(s.shared.positions, decisions)
  {
    RunAppend(Init(limits), setup, actions);
    FifoAlways(Run(Init(limits), setup), actions);
    BookkeepingAlways(limits, setup + actions);
    DecidedInOrder(Run(Init(limits), setup), Run(Init(limits), setup + actions));
  }

  lemma DecidedInOrder(s: State, t: State)
    requires FlowInv(t) && FollowsFifo(s, t)
    ensures |s.log| <= |t.log| <= |t.pushed| && (Settled(t) ==> |t.log| == |t.pushed|)
    ensures var decisions := Fifo(s.shared.positions, s.shared.prices, s.shared.limits, t.pushed[|s.log|..|t.log|]);
      t.log == s.log + decisions && t.shared.positions == ReplayFrom(s.shared.positions, decisions)
  {
    DecidedPart(s.log, t.log, Held(t.worker), t.shared.queue);
  }

  /** The orders decided since are a piece of the orders pushed. */
  lemma DecidedPart(before: seq<Outcome>, log: seq<Outcome>, held: seq<Order>, queue: seq<Order>)
    requires before <= log
    ensures log == before + log[|before|..]
    ensures |log| <= |Orders(log) + held + queue|
    ensures (Orders(log) + held + queue)[|before|..|log|] == Orders(log[|before|..])
  {
  }

  // The worker undisturbed.

  ghost function Works(s: State, n: nat): State
    decreases n
  {
    if n == 0 then s else Works(Worked(s), n - 1)
  }

  /** What is left of a round when its batch has been decided. */
  ghost function BatchDone(s: State, batch: seq<Order>, final: bool): State {
    var log := Fifo(s.shared.positions, s.shared.prices, s.shared.limits, batch);
    s.(worker := if final then Exited else AtLoopHead, log := s.log + log,
       shared := s.shared.(positions := ReplayFrom(s.shared.positions, log)))
  }

  lemma {:induction false} ReplayFromAppend(book: Book, first: seq<Outcome>, second: seq<Outcome>)
    ensures ReplayFrom(book, first + second) == ReplayFrom(ReplayFrom(book, first), second)
  {
    if |second| == 0 {
      assert first + second == first;
    } else {
      var n := |second| - 1;
      ReplayFromAppend(book, first, second[..n]);
      assert first + second == (first + second[..n]) + [second[n]];
      ReplayFromSnoc(book, first + second[..n], second[n]);
    }
  }

  /** The fold may stop anywhere and go on from the book it has reached. */
  lemma {:induction false} FoldAppend(book: Book, decide: (Book, Order) -> Outcome,
                                      first: seq<Order>, second: seq<Order>, log: seq<Outcome>, next: Book)
    requires Fold(book, decide, first) == log && ReplayFrom(book, log) == next
    ensures Fold(book, decide, first + second) == log + Fold(next, decide, second)
    decreases |second|
  {
    if |second| == 0 {
      assert first + second == first;
    } else {
      var n := |second| - 1;
      FoldAppend(book, decide, first, second[..n], log, next);
      FoldAppendOne(book, decide, first, second[..n], second[n], log, next);
      assert second[..n] + [second[n]] == second;
    }
  }

  lemma FoldAppendOne(book: Book, decide: (Book, Order) -> Outcome, first: seq<Order>, rest: seq<Order>, o: Order,
                      log: seq<Outcome>, next: Book)
    requires ReplayFrom(book, log) == next
    requires Fold(book, decide, first + rest) == log + Fold(next, decide, rest)
    ensures Fold(book, decide, first + (rest + [o])) == log + Fold(next, decide, rest + [o])
  {
    var later := Fold(next, decide, rest);
    FoldSnoc(book, decide, first + rest, o);
    FoldSnoc(next, decide, rest, o);
    ReplayFromAppend(book, log, later);
    Assoc(log, later, [decide(ReplayFrom(next, later), o)]);
    Assoc(first, rest, [o]);
  }

  lemma FifoAppend(book: Book, prices: Prices, limits: Limits, first: seq<Order>, second: seq<Order>)
    ensures var log := Fifo(book, prices, limits, first);
      Fifo(book, prices, limits, first + second) == log + Fifo(ReplayFrom(book, log), prices, limits, second)
  {
    var log := Fifo(book, prices, limits, first);
    FoldAppend(book, ByRules(prices, limits), first, second, log, ReplayFrom(book, log));
  }

  lemma FifoFirst(book: Book, prices: Prices, limits: Limits, o: Order)
    ensures Fifo(book, prices, limits, [o]) == [Decision(book, prices, limits, o)]
  {
    assert [o][..0] == [];
  }

  lemma DecidedFirst(s: State, next: State, o: Order, rest: seq<Order>, final: bool)
    requires var d := Decision(s.shared.positions, s.shared.prices, s.shared.limits, o);
      next == s.(worker := Routing(rest, final), log := s.log + [d],
                 shared := s.shared.(positions := ReplayFrom(s.shared.positions, [d])))
    ensures BatchDone(next, rest, final) == BatchDone(s, [o] + rest, final)
  {
    var d := Decision(s.shared.positions, s.shared.prices, s.shared.limits, o);
    FifoFirst(s.shared.positions, s.shared.prices, s.shared.limits, o);
    FifoAppend(s.shared.positions, s.shared.prices, s.shared.limits, [o], rest);
    var later := Fifo(next.shared.positions, s.shared.prices, s.shared.limits, rest);
    ReplayFromAppend(s.shared.positions, [d], later);
    assert (s.log + [d]) + later == s.log + ([d] + later);
  }

  /** Left alone, the worker decides its batch as the sequential processor does, and ends the round. */
  lemma {:induction false} WorkerDecidesBatch(s: State, batch: seq<Order>, final: bool) returns (n: nat)
    requires s.worker == Routing(batch, final)
    ensures Works(s, n) == BatchDone(s, batch, final)
    decreases |batch|
  {
    if |batch| == 0 {
      n := 1;
      NothingToDecide(s, batch, final);
    } else {
      var o, rest := batch[0], batch[1..];
      assert [o] + rest == batch;
      var steps := OneOrder(s, o, rest, final);
      DecidedFirst(s, Works(s, steps), o, rest, final);
      var m := WorkerDecidesBatch(Works(s, steps), rest, final);
      WorksAdd(s, steps, m);
      n := steps + m;
    }
  }

  lemma NothingToDecide(s: State, batch: seq<Order>, final: bool)
    requires s.worker == Routing(batch, final) && batch == []
    ensures Works(s, 1) == BatchDone(s, batch, final)
  {
    assert s.log + [] == s.log;
  }

  lemma {:induction false} WorksAdd(s: State, m: nat, n: nat)
    ensures Works(s, m + n) == Works(Works(s, m), n)
    decreases m
  {
    if m > 0 {
      WorksAdd(Worked(s), m - 1, n);
    }
  }

  /** One order takes the worker one step when rejected, two when executed. */
  lemma OneOrder(s: State, o: Order, rest: seq<Order>, final: bool) returns (n: nat)
    requires s.worker == Routing([o] + rest, final)
    ensures var d := Decision(s.shared.positions, s.shared.prices, s.shared.limits, o);
      Works(s, n) == s.(worker := Routing(rest, final), log := s.log + [d],
                        shared := s.shared.(positions := ReplayFrom(s.shared.positions, [d])))
  {
    WorksTwice(s);
    ReplayOne(s.shared.positions, Decision(s.shared.positions, s.shared.prices, s.shared.limits, o));
    if Accepts(s.shared.positions, s.shared.prices, s.shared.limits, o) {
      OrderExecuted(s, o, rest, final);
      n := 2;
    } else {
      OrderRejected(s, o, rest, final);
      n := 1;
    }
  }

  lemma OrderRejected(s: State, o: Order, rest: seq<Order>, final: bool)
    requires s.worker == Routing([o] + rest, final)
    requires !Accepts(s.shared.positions, s.shared.prices, s.shared.limits, o)
    ensures Worked(s) == s.(worker := Routing(rest, final),
                            log := s.log + [Rejected(o, s.shared.prices, s.shared.limits)])
  {
    assert ([o] + rest)[0] == o && ([o] + rest)[1..] == rest;
  }

  lemma OrderExecuted(s: State, o: Order, rest: seq<Order>, final: bool)
    requires s.worker == Routing([o] + rest, final)
    requires Accepts(s.shared.positions, s.shared.prices, s.shared.limits, o)
    ensures Worked(Worked(s)) == s.(worker := Routing(rest, final),
                                    log := s.log + [Executed(o, s.shared.prices, s.shared.limits)],
                                    shared := s.shared.(positions := Applied(s.shared.positions, o)))
  {
    assert ([o] + rest)[0] == o && ([o] + rest)[1..] == rest;
  }

  lemma WorksTwice(s: State)
    ensures Works(s, 1) == Worked(s) && Works(s, 2) == Worked(Worked(s))
  {
    WorksAdd(s, 1, 1);
  }

  lemma ReplayOne(book: Book, o: Outcome)
    ensures ReplayFrom(book, [o]) == if o.Executed? then Applied(book, o.order) else book
  {
    ReplayFromSnoc(book, [], o);
    assert [] + [o] == [o];
  }

  lemma {:induction false} RunAppend(s: State, first: seq<Action>, second: seq<Action>)
    ensures Run(s, first + second) == Run(Run(s, first), second)
  {
    if |second| == 0 {
      assert first + second == first;
    } else {
      var n := |second| - 1;
      RunAppend(s, first, second[..n]);
      assert (first + second)[..|first + second| - 1] == first + second[..n];
    }
  }
}
