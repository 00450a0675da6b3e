/**
 Stopping the engine (src/trading/engine.cpp): `stop` returns under any interference, and it leaves an order in
 the queue exactly when a call was between its running check and its push at the worker's final swap.
 */
module EngineStop {
  import opened Common
  import opened Portfolio
  import opened EngineSteps

  // The join returns.

  function WorkCount(actions: seq<Action>): nat {
    if |actions| == 0 then 0 else
      WorkCount(actions[..|actions| - 1]) + if actions[|actions| - 1].Work? then 1 else 0
  }

  /** How far the worker of a stopped engine is from its exit, apart from the orders still to be decided. */
  function Phase(w: Worker): nat {
    match w
    case Exited => 0
    case AtLoopHead => 3
    case Swapping(final) => if final then 2 else 5
    case Routing(_, final) => if final then 1 else 4
    case Checked(_, _, final, _, _) => if final then 0 else 3
  }

  /** The orders the worker may yet have to decide; after its final swap, those it holds. */
  function ToDecide(s: State): nat {
    |Held(s.worker)|
    + if Drained(s.worker) then 0 else |s.shared.queue| + |InFlight(s.submissions)|
  }

  /** A bound on the steps that the worker of a stopped engine still takes. */
  function Remaining(s: State): nat {
    2 * ToDecide(s) + Phase(s.worker)
  }

  lemma RemainingWork(s: State)
    requires !s.shared.running && PhaseInv(s) && !s.worker.Exited?
    ensures Remaining(Worked(s)) < Remaining(s)
  {
  }

  lemma CallLeaves(calls: map<nat, Submission>, t: nat)
    ensures |InFlight(calls - {t})| <= |InFlight(calls)|
    ensures t in InFlight(calls) ==> |InFlight(calls - {t})| < |InFlight(calls)|
  {
    assert InFlight(calls - {t}) == InFlight(calls) - {t};
  }

  lemma CallMoves(calls: map<nat, Submission>, t: nat, next: Submission)
    requires t in calls
    ensures t in InFlight(calls) && next.Queued? ==> |InFlight(calls[t := next])| == |InFlight(calls)| - 1
    ensures t in InFlight(calls) && !next.Queued? ==> InFlight(calls[t := next]) == InFlight(calls)
  {
    if t in InFlight(calls) && next.Queued? {
      assert InFlight(calls[t := next]) == InFlight(calls) - {t};
    }
  }

  lemma RemainingSubmitted(s: State, t: nat, a: Action)
    requires t in s.submissions
    ensures Remaining(Submitted(s, t, a)) <= Remaining(s)
  {
    CallLeaves(s.submissions, t);
    match (a, s.submissions[t])
    case (Number(_), Validated(r)) =>
      CallMoves(s.submissions, t, Numbered(NextOrder(s.shared, r)));
    case (Check(_), Numbered(o)) =>
      CallMoves(s.submissions, t, Approved(o));
    case (Push(_), Approved(o)) =>
      CallMoves(s.submissions, t, Queued(o));
    case _ =>
  }

  lemma RemainingStep(s: State, a: Action)
    requires !s.shared.running && PhaseInv(s) && !a.Start?
    ensures var next := Step(s, a);
      && !next.shared.running && PhaseInv(next)
      && (s.worker.Exited? ==> next.worker.Exited?)
      && (!next.worker.Exited? ==> Remaining(next) + (if a.Work? then 1 else 0) <= Remaining(s))
  {
    PhaseStep(s, a);
    if a.Work? {
      WorkIsWorked(s, a);
      if !s.worker.Exited? {
        RemainingWork(s);
      }
    } else if (a.Number? || a.Check? || a.Push? || a.Return?) && a.caller in s.submissions {
      RemainingSubmitted(s, a.caller, a);
    }
  }

  /**
   `stop` returns: once the engine is not running, in any interleaving without a new start the worker exits
   after a number of its own steps that is known when the engine stops. Only the orders queued, held or
   still with a caller count; after the final swap, only those the worker holds.
   */
  lemma {:induction false} StopReturns(s: State, actions: seq<Action>)
    requires !s.shared.running && PhaseInv(s) && WithoutStart(actions)
    ensures var t := Run(s, actions);
      && !t.shared.running && PhaseInv(t)
      && (!t.worker.Exited? ==> Remaining(t) + WorkCount(actions) <= Remaining(s))
      && (WorkCount(actions) >= Remaining(s) ==> t.worker.Exited?)
  {
    if |actions| > 0 {
      var before, a := actions[..|actions| - 1], actions[|actions| - 1];
      StopReturns(s, before);
      RemainingStep(Run(s, before), a);
    }
    if !Run(s, actions).worker.Exited? {
      StillWorking(Run(s, actions));
    }
  }

  /** The bound written out: for any worker of a stopped engine, and for one past its final swap. */
  lemma StopReturnsSoon(s: State, actions: seq<Action>)
    requires !s.shared.running && PhaseInv(s) && WithoutStart(actions)
    requires var held := |Held(s.worker)|;
      || multiset(actions)[Work] >= 2 * (held + |s.shared.queue| + |InFlight(s.submissions)|) + 5
      || (Drained(s.worker) && multiset(actions)[Work] >= 2 * held + 1)
    ensures Run(s, actions).worker.Exited?
  {
    WorkCountIs(actions);
    StopReturns(s, actions);
  }

  lemma {:induction false} WorkCountIs(actions: seq<Action>)
    ensures WorkCount(actions) == multiset(actions)[Work]
  {
    if |actions| > 0 {
      var n := |actions| - 1;
      WorkCountIs(actions[..n]);
      assert actions == actions[..n] + [actions[n]];
    }
  }

  lemma StillWorking(s: State)
    requires !s.worker.Exited?
    ensures Remaining(s) > 0
  {
  }

  // What stopping leaves behind.

  /** `stop` has returned, and an order is still in the queue. */
  predicate LeftBehind(s: State) {
    s.worker.Exited? && !s.shared.running && !s.stopping && s.shared.queue != []
  }

  /** Past its final swap, the worker stays past it, and nobody joins the calls that were in flight then. */
  ghost predicate QuietDrain(s: State) {
    Drained(s.worker) && s.atDrain == {} && PhaseInv(s) && DrainInv(s)
  }

  lemma QuietDrainStep(s: State, a: Action)
    requires QuietDrain(s) && !a.Start?
    ensures QuietDrain(Step(s, a))
  {
    PhaseStep(s, a);
    DrainStep(s, a);
    if a.Work? {
      WorkIsWorked(s, a);
    } else {
      OthersKeepDecisions(s, a);
    }
  }

  lemma {:induction false} QuietDrainAlways(s: State, actions: seq<Action>)
    requires QuietDrain(s) && WithoutStart(actions)
    ensures QuietDrain(Run(s, actions))
  {
    if |actions| > 0 {
      var before, a := actions[..|actions| - 1], actions[|actions| - 1];
      QuietDrainAlways(s, before);
      QuietDrainStep(Run(s, before), a);
    }
  }

  lemma SwapStarts(s: State)
    requires s.worker == Swapping(true) && PhaseInv(s)
    ensures var next := Step(s, Work);
      && next.worker == Routing(s.shared.queue, true) && next.shared == s.shared.(queue := [])
      && next.submissions == s.submissions && next.atDrain == InFlight(s.submissions)
      && PhaseInv(next) && DrainInv(next)
  {
    PhaseStep(s, Work);
    DrainStep(s, Work);
  }

  function OnlyWork(n: nat): (actions: seq<Action>)
    ensures |actions| == n && WithoutStart(actions)
  {
    seq(n, i => Work)
  }

  lemma {:induction false} WorksIsRun(s: State, n: nat)
    ensures Run(s, OnlyWork(n)) == Works(s, n)
  {
    if n > 0 {
      WorksIsRun(s, n - 1);
      assert OnlyWork(n)[..n - 1] == OnlyWork(n - 1);
      WorkIsWorked(Works(s, n - 1), Work);
      WorksAdd(s, n - 1, 1);
    }
  }

  /** Left alone after its final swap, the worker decides its batch and exits; nobody else moves. */
  lemma DrainAlone(s: State, batch: seq<Order>) returns (actions: seq<Action>)
    requires s.worker == Routing(batch, true) && s.shared.queue == [] && PhaseInv(s)
    ensures WithoutStart(actions)
    ensures var t := Run(s, actions);
      t.worker.Exited? && t.submissions == s.submissions && PhaseInv(t)
  {
    var n := WorkerDecidesBatch(s, batch, true);
    WorksIsRun(s, n);
    actions := OnlyWork(n);
    StopReturns(s, actions);
  }

  /** A call in flight gets its order into the queue of an engine whose worker has gone, and `stop` returns. */
  lemma PushLate(s: State, t: nat) returns (actions: seq<Action>)
    requires s.worker.Exited? && PhaseInv(s) && !s.shared.running && t in InFlight(s.submissions)
    ensures WithoutStart(actions) && LeftBehind(Run(s, actions))
  {
    var finish := Finish(t);
    FinishPushes(s, t);
    StrandedUntilRestart(s, finish);
    StopReturns(s, finish);
    actions := finish + [Join];
    assert actions[..|actions| - 1] == finish;
  }

  /** The condition is sufficient: the worker drains alone, and then a call in flight pushes. */
  lemma LateCallIsLeft(s: State, t: nat) returns (actions: seq<Action>)
    requires s.worker == Swapping(true) && PhaseInv(s) && t in InFlight(s.submissions)
    ensures WithoutStart(actions) && LeftBehind(Run(Step(s, Work), actions))
  {
    SwapStarts(s);
    var next := Step(s, Work);
    var drain := DrainAlone(next, s.shared.queue);
    StopReturns(next, drain);
    var late := PushLate(Run(next, drain), t);
    RunAppend(next, drain, late);
    actions := drain + late;
  }

  /**
   The exact condition, at the worker's final swap: some interleaving without a new start leaves an order in
   the queue of the worker that has gone, whether it was pushed during the final drain or after it, if and
   only if a call is between its running check and its push. It does so with `stop` returned under the same
   condition.
   */
  lemma DrainCondition(s: State)
    requires s.worker == Swapping(true) && PhaseInv(s)
    ensures (exists actions :: WithoutStart(actions) && var t := Run(Step(s, Work), actions);
                               t.worker.Exited? && t.shared.queue != [])
       <==> InFlight(s.submissions) != {}
    ensures (exists actions :: WithoutStart(actions) && LeftBehind(Run(Step(s, Work), actions)))
       <==> InFlight(s.submissions) != {}
  {
    if InFlight(s.submissions) != {} {
      var t :| t in InFlight(s.submissions);
      var actions := LateCallIsLeft(s, t);
      assert WithoutStart(actions) && LeftBehind(Run(Step(s, Work), actions));
    } else {
      SwapStarts(s);
      forall actions | WithoutStart(actions) ensures Run(Step(s, Work), actions).shared.queue == []
                                                   || !Run(Step(s, Work), actions).worker.Exited? {
        QuietDrainAlways(Step(s, Work), actions);
      }
    }
  }

  /** A run in which a call pushes after the final swap and before the worker exits. */
  function PushDuringDrain(r: Request): seq<Action> {
    [Start, Begin(0, r), Number(0), Check(0), Stop, Work, Work, Push(0), Work, Join]
  }

  /** That run, too, ends with an order left behind, although no call is in flight when the worker has gone. */
  lemma PushDuringDrainIsStranded(r: Request)
    requires |r.symbol| > 0 && r.quantity > 0.0
    ensures var s := Run(Init(Limits(0.0, 0.0)), PushDuringDrain(r));
      LeftBehind(s) && InFlight(s.submissions) == {}
  {
    var s0, acts := Init(Limits(0.0, 0.0)), PushDuringDrain(r);
    var o := Order(1, r.symbol, r.quantity, r.limitPrice, r.side);
    ApprovedCall(r, o);
    StoppedWorker(r, o);
    assert acts[..6] == LatePush(r)[..6];
    StopAndDrain(o);
    RunTo(s0, acts, 7);
    PushInDrain(o);
    RunTo(s0, acts, 8);
    RunTo(s0, acts, 9);
    RunTo(s0, acts, 10);
    assert acts[..10] == acts;
  }

  lemma PushInDrain(o: Order)
    ensures var s := Step(Step(Step(CallOnly(false, Routing([], true), true, o, {0}), Push(0)), Work), Join);
      LeftBehind(s) && InFlight(s.submissions) == {}
  {
  }
}
