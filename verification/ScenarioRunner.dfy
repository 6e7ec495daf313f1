/** The scenario runner object: the loops of Settling.dfy over mutable state, and the
    assertion step with its verdict. */
module ScenarioRunner {
  import opened Common
  import opened Engine
  import opened Settling

  /** What an assertion step reports. */
  datatype AssertionOutcome<V> = AssertionOutcome(actual: Option<V>, passed: bool, evaluatedAt: nat)

  class ScenarioRunner<W(0), P, V> {
    const setup: Setup<W, P>
    /** The engine of the run, and everything its handlers act on. */
    var engine: Sim<W, P>
    var assertionResults: seq<AssertionOutcome<V>>
    /** Every event dispatched so far. */
    ghost var trace: seq<Event<P>>

    ghost function View(): Run<W, P>
      reads this`engine, this`trace
    {
      Run(engine, trace)
    }

    ghost predicate Valid()
      reads this`engine, this`trace
    {
      RunOk(View()) && setup.maxSettleEvents > 0
    }

    constructor (setup: Setup<W, P>, engine: Sim<W, P>)
      requires setup.maxSettleEvents > 0 && QueueOk(engine)
      ensures this.setup == setup && Valid() && View() == Run(engine, []) && assertionResults == []
    {
      this.setup, this.engine, assertionResults, trace := setup, engine, [], [];
    }

    // Each method below answers whether it ended; if not, the program raised.

    method React(effect: Reaction<W, P>)
      modifies this`engine
      ensures View() == Apply(old(View()), effect)
    {
      engine := ScheduleAll(engine.(world := effect.world), effect.requests);
    }

    /** Run the handlers of one event, phase by phase. */
    method Dispatch(depth: nat, phases: seq<Phase>, event: Event<P>) returns (ok: bool)
      requires Valid()
      modifies this`engine, this`trace
      ensures var q := RunPhases(setup, depth, old(View()), phases, event);
        ok == q.Some? && (ok ==> Valid() && View() == q.value)
      decreases depth, 1
    {
      hide Apply, SettleIn, RunOk;
      ghost var start := View();
      var i := 0;
      while i < |phases|
        invariant i <= |phases| && Valid()
        invariant RunPhases(setup, depth, start, phases, event) == RunPhases(setup, depth, View(), phases[i..], event)
      {
        ghost var before := View();
        assert phases[i..][0] == phases[i] && phases[i..][1..] == phases[i + 1..];
        match phases[i] {
          case Act(action) =>
            var effect := setup.act(action, engine.world, event);
            ApplyContinues(before, effect);
            React(effect);
          case Settle =>
            if depth == 0 {
              return false;
            }
            var settled := RunCurrentEvents(depth - 1);
            if !settled {
              return false;
            }
        }
        i := i + 1;
      }
      ok := true;
    }

    /** Dispatch up to `maxSettleEvents` events due by `horizon`, then jump there. */
    method RunEngineUntil(depth: nat, horizon: nat) returns (ok: bool, dispatched: nat)
      requires Valid() && engine.now <= horizon
      modifies this`engine, this`trace
      ensures var q := RunDue(setup, depth, old(View()), horizon, setup.maxSettleEvents);
        ok == q.Some? && (ok ==> View() == JumpTo(q.value, horizon))
      ensures ok ==> Valid() && engine.now <= horizon && (dispatched == 0 <==> |trace| == |old(trace)|)
      decreases depth, 2
    {
      hide RunPhases, HandlersFor, AllPhases, RunOk;
      ghost var start := View();
      dispatched := 0;
      while dispatched < setup.maxSettleEvents && engine.queue != [] && engine.queue[0].event.time <= horizon
        invariant Valid() && dispatched <= setup.maxSettleEvents && engine.now <= horizon
        invariant RunDue(setup, depth, start, horizon, setup.maxSettleEvents)
          == RunDue(setup, depth, View(), horizon, setup.maxSettleEvents - dispatched)
        invariant |trace| >= |start.trace| + dispatched && (dispatched == 0 ==> View() == start)
      {
        ghost var before := View();
        var item := engine.queue[0];
        var phases := AllPhases(setup, HandlersFor(engine, item));
        PopContinues(before);
        engine := engine.(now := item.event.time, queue := engine.queue[1..]);
        trace := trace + [item.event];
        PhasesContinue(setup, depth, View(), phases, item.event);
        var went := Dispatch(depth, phases, item.event);
        if !went {
          return false, dispatched;
        }
        dispatched := dispatched + 1;
      }
      JumpContinues(View(), horizon);
      if engine.queue == [] || horizon < engine.queue[0].event.time {
        engine := engine.(now := horizon);
      }
      ok := true;
    }

    /** Deliver every queued frame; answer whether there were any. */
    method DrainTransportFrames() returns (deliveredAny: bool)
      requires Valid()
      modifies this`engine
      ensures Valid()
      ensures var drained := setup.drain(old(engine.world));
        && deliveredAny == drained.Some?
        && View() == if deliveredAny then Apply(old(View()), drained.value) else old(View())
    {
      hide RunOk, Apply;
      var drained := setup.drain(engine.world);
      if drained.Some? {
        ApplyContinues(View(), drained.value);
        React(drained.value);
      }
      deliveredAny := drained.Some?;
    }

    /** Alternate dispatching with draining until neither does anything. */
    method RunCurrentEvents(depth: nat) returns (ok: bool)
      requires Valid()
      modifies this`engine, this`trace
      ensures var q := SettleIn(setup, depth, old(View()), setup.maxSettleEvents);
        ok == q.Some? && (ok ==> View() == q.value)
      ensures ok ==> Valid() && engine.now == old(engine.now) && Settled(setup, View())
      decreases depth, 3
    {
      hide RunDue, RunOk, Apply, Settled;
      ghost var start := View();
      SettleContinues(setup, depth, start, setup.maxSettleEvents);
      for round := 0 to setup.maxSettleEvents
        invariant Valid()
        invariant SettleIn(setup, depth, start, setup.maxSettleEvents)
          == SettleIn(setup, depth, View(), setup.maxSettleEvents - round)
      {
        ghost var before := View();
        DueContinues(setup, depth, before, engine.now, setup.maxSettleEvents);
        var went, dispatched := RunEngineUntil(depth, engine.now);
        if !went {
          return false;
        }
        var drainedAny := DrainTransportFrames();
        if dispatched == 0 && !drainedAny {
          return true;
        }
      }
      ok := false;
    }

    /** Advance virtual time by `delay`, dispatching what falls due, and settle. */
    method Wait(depth: nat, delay: nat) returns (ok: bool)
      requires Valid()
      modifies this`engine, this`trace
      ensures var q := Settling.Wait(setup, depth, old(View()), delay);
        ok == q.Some? && (ok ==> View() == q.value)
      ensures ok ==> Valid() && engine.now == old(engine.now) + delay && Settled(setup, View())
      ensures ok && delay == 0 ==>
        var first := SettleIn(setup, depth, old(View()), setup.maxSettleEvents);
        first.Some? && Handled(first.value, setup.emit(first.value.state.world, engine.now), View())
    {
      hide RunDue, SettleIn, RunOk, Apply, Settled, JumpTo, Handled;
      WaitContinues(setup, depth, View(), delay);
      WaitOfZeroEmits(setup, depth, View());
      if delay == 0 {
        ok := RunCurrentEvents(depth);
        if ok {
          var effect := setup.emit(engine.world, engine.now);
          ApplyContinues(View(), effect);
          React(effect);
          ok := RunCurrentEvents(depth);
        }
        return;
      }
      var target := engine.now + delay;
      var went, _ := RunEngineUntil(depth, target);
      if !went || engine.now < target {
        return false;
      }
      ok := RunCurrentEvents(depth);
    }

    /** Schedule the event that reports a verdict, and settle. */
    method Report(depth: nat, payload: P) returns (ok: bool)
      requires Valid()
      modifies this`engine, this`trace
      ensures var before := old(View());
        ok ==>
          && Valid() && SettleIn(setup, depth, Reported(before, payload), setup.maxSettleEvents) == Some(View())
          && Dispatched(|before.trace|, trace,
               Event(before.state.now, before.state.nextSequence, AssertionEvent, payload))
    {
      hide SettleIn, RunOk, Apply, Reported, Verdict, Dispatched;
      ReportedIsApplied(View(), payload);
      ApplyContinues(View(), Verdict(engine.world, payload));
      VerdictIsDispatched(setup, depth, View(), payload, setup.maxSettleEvents);
      React(Verdict(engine.world, payload));
      ok := RunCurrentEvents(depth);
    }

    /** Check an assertion now and at every later instant at which anything happens, up
        to and including its deadline, and report the first verdict that is final. */
    method AssertStep(depth: nat, a: Assertion<W, V, P>)
      returns (ok: bool, result: AssertionOutcome<V>, ghost looks: nat)
      requires Valid()
      modifies this
      ensures ok ==> Valid() && assertionResults == old(assertionResults) + [result]
      ensures ok ==>
        var deadline := old(engine.now) + a.timeout;
        && DecidedAt(setup, depth, old(View()), deadline, a, looks)
        && var last := Polled(setup, depth, old(View()), deadline, looks).value;
          && result.actual == a.read(last.state.world) && result.evaluatedAt == last.state.now
          && (result.passed <==> result.actual.Some? && a.accepts(result.actual.value))
          && SettleIn(setup, depth, Reported(last, a.report(result.passed)), setup.maxSettleEvents) == Some(View())
          && Dispatched(|last.trace|, trace,
               Event(last.state.now, last.state.nextSequence, AssertionEvent, a.report(result.passed)))
    {
      hide Settling.Wait, SettleIn, RunOk, Settled, Reported, Dispatched;
      ghost var start := View();
      var deadline := engine.now + a.timeout;
      looks := 0;
      result := AssertionOutcome(None, false, deadline);
      Reflexive(start);
      while true
        invariant Valid() && engine.now <= deadline && assertionResults == old(assertionResults)
        invariant Polled(setup, depth, start, deadline, looks) == Some(View())
        invariant looks > 0 ==> Settled(setup, View())
        invariant forall j :: 0 <= j < looks ==> Undecided(setup, depth, start, deadline, a, j)
        decreases deadline - engine.now, looks == 0
      {
        var actual := a.read(engine.world);
        if actual.Some? {
          result := AssertionOutcome(actual, a.accepts(actual.value), engine.now);
          if result.passed || engine.now >= deadline {
            break;
          }
        } else if engine.now >= deadline {
          result := AssertionOutcome(None, false, engine.now);
          break;
        }
        assert Undecided(setup, depth, start, deadline, a, looks);
        var nextStop := if engine.queue == [] || deadline < engine.queue[0].event.time then deadline else engine.queue[0].event.time;
        PendingIsLater(setup, View(), looks);
        ok := Wait(depth, nextStop - engine.now);
        if !ok {
          return;
        }
        looks := looks + 1;
      }
      assert DecidedAt(setup, depth, start, deadline, a, looks);
      assertionResults := assertionResults + [result];
      ok := Report(depth, a.report(result.passed));
    }
  }
}
