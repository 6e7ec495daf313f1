/** The scenario runner's loops over the engine: settling the current instant, waiting,
    and polling an assertion until it passes or its deadline is reached. */
module Settling {
  import opened Common
  import opened Engine

  /** A handler is a list of phases: act on the world, or settle the current instant
      before going on. */
  datatype Phase = Act(action: nat) | Settle

  /** What surrounds the engine: the handlers, the bus, and the telemetry nodes emit. */
  datatype Setup<!W, !P> = Setup(
    phases: HandlerId -> seq<Phase>,
    act: (nat, W, Event<P>) -> Reaction<W, P>,
    /** Deliver every queued frame; nothing if the bus is empty. */
    drain: W -> Option<Reaction<W, P>>,
    emit: (W, nat) -> Reaction<W, P>,
    maxSettleEvents: nat)

  function Apply<W, P>(r: Run<W, P>, effect: Reaction<W, P>): Run<W, P> {
    Run(ScheduleAll(r.state.(world := effect.world), effect.requests), r.trace)
  }

  function AllPhases<W, P>(c: Setup<W, P>, ids: seq<HandlerId>): seq<Phase> {
    if ids == [] then [] else c.phases(ids[0]) + AllPhases(c, ids[1..])
  }

  // Each function below gives nothing when the program raises: too many rounds, too
  // many events, or settles nested deeper than `depth`.

  /** Run the phases of the handlers of one event. */
  function RunPhases<W, P>(c: Setup<W, P>, depth: nat, r: Run<W, P>, phases: seq<Phase>, e: Event<P>): Option<Run<W, P>>
    decreases depth, 1, |phases|
  {
    if phases == [] then Some(r)
    else match phases[0]
      case Act(action) => RunPhases(c, depth, Apply(r, c.act(action, r.state.world, e)), phases[1..], e)
      case Settle =>
        if depth == 0 then None
        else
          var q := SettleIn(c, depth - 1, r, c.maxSettleEvents);
          if q.None? then None else RunPhases(c, depth, q.value, phases[1..], e)
  }

  /** Take the next event off the queue, jumping time to it. */
  function Pop<W, P>(r: Run<W, P>): Run<W, P>
    requires r.state.queue != []
  {
    var e := r.state.queue[0].event;
    Run(r.state.(now := e.time, queue := r.state.queue[1..]), r.trace + [e])
  }

  /** Dispatch up to `n` events due by `horizon`. */
  function RunDue<W, P>(c: Setup<W, P>, depth: nat, r: Run<W, P>, horizon: nat, n: nat): Option<Run<W, P>>
    decreases depth, 2, n
  {
    if n == 0 || !Due(r.state, horizon) then Some(r)
    else
      var item := r.state.queue[0];
      var q := RunPhases(c, depth, Pop(r), AllPhases(c, HandlersFor(r.state, item)), item.event);
      if q.None? then None else RunDue(c, depth, q.value, horizon, n - 1)
  }

  function JumpTo<W, P>(r: Run<W, P>, horizon: nat): Run<W, P> {
    if Due(r.state, horizon) then r else Run(r.state.(now := horizon), r.trace)
  }

  /** Alternate dispatching what is due now with draining the bus, until neither does
      anything, for at most `rounds` rounds. */
  function SettleIn<W, P>(c: Setup<W, P>, depth: nat, r: Run<W, P>, rounds: nat): Option<Run<W, P>>
    decreases depth, 3, rounds
  {
    if rounds == 0 then None
    else
      var q := RunDue(c, depth, r, r.state.now, c.maxSettleEvents);
      if q.None? then None
      else
        var after := JumpTo(q.value, r.state.now);
        var drained := c.drain(after.state.world);
        if drained.None? then
          if |after.trace| == |r.trace| then Some(after) else SettleIn(c, depth, after, rounds - 1)
        else SettleIn(c, depth, Apply(after, drained.value), rounds - 1)
  }

  /** Advance time by `delay` and settle; a delay of zero also emits telemetry. */
  function Wait<W, P>(c: Setup<W, P>, depth: nat, r: Run<W, P>, delay: nat): Option<Run<W, P>> {
    if delay == 0 then
      var q := SettleIn(c, depth, r, c.maxSettleEvents);
      if q.None? then None
      else SettleIn(c, depth, Apply(q.value, c.emit(q.value.state.world, q.value.state.now)), c.maxSettleEvents)
    else
      var target := r.state.now + delay;
      var q := RunDue(c, depth, r, target, c.maxSettleEvents);
      if q.None? || JumpTo(q.value, target).state.now < target then None
      else SettleIn(c, depth, JumpTo(q.value, target), c.maxSettleEvents)
  }

  // ---- What settling guarantees ----

  /** Everything pending lies ahead, and nothing is on the bus. */
  ghost predicate Settled<W, P>(c: Setup<W, P>, r: Run<W, P>) {
    (forall i :: 0 <= i < |r.state.queue| ==> r.state.now < r.state.queue[i].event.time) && c.drain(r.state.world) == None
  }

  /** `q` continues `r`: dispatched events are kept, order holds throughout, the events
      dispatched in between lie between the times of both, and nothing pending is lost. */
  ghost predicate Continues<W, P>(r: Run<W, P>, q: Run<W, P>) {
    && RunOk(q) && r.trace <= q.trace && r.state.now <= q.state.now
    && DispatchedWithin(r, q, r.state.now, q.state.now)
    && NothingLost(r, q)
  }

  /** `e` was dispatched after the first `from` events of `trace`. */
  ghost predicate Dispatched<P>(from: nat, trace: seq<Event<P>>, e: Event<P>) {
    exists j :: from <= j < |trace| && trace[j] == e
  }

  /** What was pending at `r` is still pending at `q`, or was dispatched in between. */
  ghost predicate NothingLost<W, P>(r: Run<W, P>, q: Run<W, P>) {
    forall i :: 0 <= i < |r.state.queue| ==>
      r.state.queue[i] in q.state.queue || Dispatched(|r.trace|, q.trace, r.state.queue[i].event)
  }

  /** The events `q` has dispatched since `r` have times from `low` to `high`. */
  ghost predicate DispatchedWithin<W, P>(r: Run<W, P>, q: Run<W, P>, low: nat, high: nat) {
    forall i :: |r.trace| <= i < |q.trace| ==> low <= q.trace[i].time <= high
  }

  /** The last event dispatched, if it was dispatched since `r`, set the time of `q`. */
  ghost predicate TimeIsLast<W, P>(r: Run<W, P>, q: Run<W, P>) {
    |r.trace| < |q.trace| ==> q.trace[|q.trace| - 1].time == q.state.now
  }

  lemma ContinuesTrans<W, P>(a: Run<W, P>, b: Run<W, P>, c: Run<W, P>)
    requires Continues(a, b) && Continues(b, c)
    ensures Continues(a, c)
  {
    hide RunOk, NothingLost;
    assert forall i :: 0 <= i < |b.trace| ==> c.trace[i] == b.trace[i];
    NothingLostTrans(a, b, c);
  }

  lemma NothingLostTrans<W, P>(a: Run<W, P>, b: Run<W, P>, c: Run<W, P>)
    requires NothingLost(a, b) && NothingLost(b, c) && a.trace <= b.trace <= c.trace
    ensures NothingLost(a, c)
  {
    forall i | 0 <= i < |a.state.queue| && a.state.queue[i] !in c.state.queue
      ensures Dispatched(|a.trace|, c.trace, a.state.queue[i].event)
    {
      var item := a.state.queue[i];
      if item in b.state.queue {
        var k :| 0 <= k < |b.state.queue| && b.state.queue[k] == item;
        assert b.state.queue[k] !in c.state.queue;
      } else {
        var j :| |a.trace| <= j < |b.trace| && b.trace[j] == item.event;
        assert c.trace[j] == item.event;
      }
    }
  }

  lemma ApplyContinues<W, P>(r: Run<W, P>, effect: Reaction<W, P>)
    requires RunOk(r)
    ensures Continues(r, Apply(r, effect)) && Apply(r, effect).state.now == r.state.now
    ensures Apply(r, effect).trace == r.trace
  {
    hide QueueOk, After, Increasing, ScheduleAll;
    RequestsAreQueued(r.state.(world := effect.world), effect.requests);
    NewWorldKeepsOrder(r.trace, r.state, effect.world);
    ScheduleAllKeepsOrder(r.trace, r.state.(world := effect.world), effect.requests);
  }

  lemma PopContinues<W, P>(r: Run<W, P>)
    requires RunOk(r) && r.state.queue != []
    ensures Continues(r, Pop(r)) && Pop(r).state.now == r.state.queue[0].event.time
  {
    hide QueueOk, After, Increasing;
    PopKeepsOrder(r);
    var q := Pop(r);
    assert q.trace[|r.trace|] == r.state.queue[0].event;
    forall i | 0 < i < |r.state.queue| ensures r.state.queue[i] in q.state.queue {
      assert q.state.queue[i - 1] == r.state.queue[i];
    }
  }

  lemma JumpContinues<W, P>(r: Run<W, P>, horizon: nat)
    requires RunOk(r) && r.state.now <= horizon
    ensures Continues(r, JumpTo(r, horizon)) && JumpTo(r, horizon).state.now <= horizon
  {
    if !Due(r.state, horizon) {
      LaterKeepsOrder(r, horizon);
    }
  }

  lemma {:induction false} PhasesContinue<W, P>(c: Setup<W, P>, depth: nat, r: Run<W, P>, phases: seq<Phase>, e: Event<P>)
    requires RunOk(r)
    ensures var q := RunPhases(c, depth, r, phases, e);
      q.Some? ==> Continues(r, q.value) && q.value.state.now == r.state.now
    decreases depth, 1, |phases|
  {
    hide RunOk, Apply, SettleIn;
    if phases != [] {
      match phases[0]
      case Act(action) =>
        var next := Apply(r, c.act(action, r.state.world, e));
        ApplyContinues(r, c.act(action, r.state.world, e));
        PhasesContinue(c, depth, next, phases[1..], e);
        if RunPhases(c, depth, next, phases[1..], e).Some? {
          ContinuesTrans(r, next, RunPhases(c, depth, next, phases[1..], e).value);
        }
      case Settle =>
        if depth > 0 {
          SettleContinues(c, depth - 1, r, c.maxSettleEvents);
          var q := SettleIn(c, depth - 1, r, c.maxSettleEvents);
          if q.Some? {
            PhasesContinue(c, depth, q.value, phases[1..], e);
            if RunPhases(c, depth, q.value, phases[1..], e).Some? {
              ContinuesTrans(r, q.value, RunPhases(c, depth, q.value, phases[1..], e).value);
            }
          }
        }
    }
  }

  lemma {:induction false} DueContinues<W, P>(c: Setup<W, P>, depth: nat, r: Run<W, P>, horizon: nat, n: nat)
    requires RunOk(r) && r.state.now <= horizon
    ensures var q := RunDue(c, depth, r, horizon, n);
      q.Some? ==>
        && Continues(r, q.value) && q.value.state.now <= horizon && TimeIsLast(r, q.value)
        && (|q.value.trace| == |r.trace| ==> q.value == r && (n > 0 ==> !Due(r.state, horizon)))
        && (if Due(r.state, horizon) then n > 0 ==> Continues(Pop(r), q.value) else q.value == r)
    decreases depth, 2, n
  {
    hide RunOk, Pop, AllPhases, HandlersFor, RunPhases, Continues, TimeIsLast;
    Reflexive(r);
    if n > 0 && Due(r.state, horizon) {
      var item := r.state.queue[0];
      PopContinues(r);
      OkOf(r, Pop(r));
      var phases := AllPhases(c, HandlersFor(r.state, item));
      PhasesContinue(c, depth, Pop(r), phases, item.event);
      var q := RunPhases(c, depth, Pop(r), phases, item.event);
      if q.Some? {
        OkOf(Pop(r), q.value);
        DueContinues(c, depth, q.value, horizon, n - 1);
        var end := RunDue(c, depth, q.value, horizon, n - 1);
        if end.Some? {
          OkOf(q.value, end.value);
          ContinuesTrans(Pop(r), q.value, end.value);
          ContinuesTrans(r, Pop(r), end.value);
          LastAfterPop(r, q.value, end.value);
        }
      }
    }
  }

  lemma OkOf<W, P>(r: Run<W, P>, q: Run<W, P>)
    requires Continues(r, q)
    ensures RunOk(q) && |r.trace| <= |q.trace|
  {
    hide RunOk;
  }

  /** The event taken off the queue, or one dispatched after it, is the last. */
  lemma LastAfterPop<W, P>(r: Run<W, P>, q: Run<W, P>, end: Run<W, P>)
    requires r.state.queue != [] && Continues(Pop(r), q) && q.state.now == Pop(r).state.now
    requires TimeIsLast(q, end) && |q.trace| <= |end.trace| && (|end.trace| == |q.trace| ==> end == q)
    ensures TimeIsLast(r, end) && |end.trace| > |r.trace|
  {
    hide RunOk;
    assert q.trace[|r.trace|] == Pop(r).trace[|r.trace|];
  }

  lemma Reflexive<W, P>(r: Run<W, P>)
    requires RunOk(r)
    ensures Continues(r, r) && TimeIsLast(r, r)
  {
  }

  lemma NothingDue<W, P>(c: Setup<W, P>, r: Run<W, P>)
    requires RunOk(r) && !Due(r.state, r.state.now) && c.drain(r.state.world) == None
    ensures Settled(c, r)
  {
  }

  /** Settling keeps time where it is and leaves nothing due and nothing on the bus. */
  lemma {:induction false} SettleContinues<W, P>(c: Setup<W, P>, depth: nat, r: Run<W, P>, rounds: nat)
    requires RunOk(r)
    ensures var q := SettleIn(c, depth, r, rounds);
      q.Some? ==>
        && Continues(r, q.value) && q.value.state.now == r.state.now
        && (c.maxSettleEvents > 0 ==> Settled(c, q.value))
    decreases depth, 3, rounds, 0
  {
    hide RunOk, RunDue, Apply, Settled;
    if rounds > 0 {
      var now := r.state.now;
      DueContinues(c, depth, r, now, c.maxSettleEvents);
      var q := RunDue(c, depth, r, now, c.maxSettleEvents);
      if q.Some? {
        var after := JumpTo(q.value, now);
        JumpContinues(q.value, now);
        ContinuesTrans(r, q.value, after);
        var drained := c.drain(after.state.world);
        if drained.Some? {
          ApplyContinues(after, drained.value);
          SettleFrom(c, depth, r, after, Apply(after, drained.value), rounds - 1);
        } else if |after.trace| != |r.trace| {
          SettleFrom(c, depth, r, after, after, rounds - 1);
        } else if c.maxSettleEvents > 0 {
          NothingDue(c, after);
        }
      }
    }
  }

  lemma {:induction false} SettleFrom<W, P>(c: Setup<W, P>, depth: nat, r: Run<W, P>, after: Run<W, P>, next: Run<W, P>, rounds: nat)
    requires Continues(r, after) && Continues(after, next) && r.state.now == next.state.now
    ensures var q := SettleIn(c, depth, next, rounds);
      q.Some? ==>
        && Continues(r, q.value) && q.value.state.now == r.state.now
        && (c.maxSettleEvents > 0 ==> Settled(c, q.value))
    decreases depth, 3, rounds, 1
  {
    hide SettleIn, RunOk;
    ContinuesTrans(r, after, next);
    assert RunOk(next);
    SettleContinues(c, depth, next, rounds);
    if SettleIn(c, depth, next, rounds).Some? {
      ContinuesTrans(r, next, SettleIn(c, depth, next, rounds).value);
    }
  }

  /** Nothing is pending strictly before the end of the wait. */
  predicate NothingBefore<W, P>(s: Sim<W, P>, target: nat) {
    s.queue == [] || target <= s.queue[0].event.time
  }

  lemma FromPop<W, P>(r: Run<W, P>, end: Run<W, P>)
    requires r.state.queue != [] && Continues(Pop(r), end) && end.state.now == Pop(r).state.now
    ensures DispatchedWithin(r, end, end.state.now, end.state.now)
  {
    hide RunOk;
    assert end.trace[|r.trace|] == Pop(r).trace[|r.trace|];
  }

  /** A wait ends exactly `delay` later, settled. If nothing was pending before that, all
      it dispatches happens then. */
  lemma WaitContinues<W, P>(c: Setup<W, P>, depth: nat, r: Run<W, P>, delay: nat)
    requires RunOk(r) && c.maxSettleEvents > 0
    ensures var q := Wait(c, depth, r, delay); var target := r.state.now + delay;
      q.Some? ==>
        && Continues(r, q.value) && q.value.state.now == target && Settled(c, q.value)
        && (NothingBefore(r.state, target) ==> DispatchedWithin(r, q.value, target, target))
  {
    hide SettleIn, RunDue, RunOk, Apply, Settled, Pop;
    if delay == 0 {
      SettleContinues(c, depth, r, c.maxSettleEvents);
      var q := SettleIn(c, depth, r, c.maxSettleEvents);
      if q.Some? {
        var effect := c.emit(q.value.state.world, q.value.state.now);
        ApplyContinues(q.value, effect);
        SettleFrom(c, depth, r, q.value, Apply(q.value, effect), c.maxSettleEvents);
      }
    } else {
      var target := r.state.now + delay;
      DueContinues(c, depth, r, target, c.maxSettleEvents);
      var q := RunDue(c, depth, r, target, c.maxSettleEvents);
      if q.Some? && JumpTo(q.value, target).state.now >= target {
        var arrived := JumpTo(q.value, target);
        JumpContinues(q.value, target);
        ContinuesTrans(r, q.value, arrived);
        SettleContinues(c, depth, arrived, c.maxSettleEvents);
        var end := SettleIn(c, depth, arrived, c.maxSettleEvents);
        if end.Some? {
          ContinuesTrans(r, arrived, end.value);
          if NothingBefore(r.state, target) && Due(r.state, target) {
            PopContinues(r);
            ContinuesTrans(Pop(r), q.value, arrived);
            ContinuesTrans(Pop(r), arrived, end.value);
            FromPop(r, end.value);
          }
        }
      }
    }
  }

  // ---- What the surroundings ask for ----

  /** Everything an effect asked of `start` happened: what it asked for at once was
      dispatched since, and what it asked for later is pending. */
  ghost predicate Handled<W, P>(start: Run<W, P>, effect: Reaction<W, P>, end: Run<W, P>) {
    forall k :: 0 <= k < |effect.requests| ==>
      var item := ItemOf(start.state, effect.requests, k);
      if effect.requests[k].delay == 0 then Dispatched(|start.trace|, end.trace, item.event)
      else item in end.state.queue
  }

  /** A settle that ends handles the effect it began with. */
  lemma EffectIsHandled<W, P>(c: Setup<W, P>, depth: nat, r: Run<W, P>, effect: Reaction<W, P>, rounds: nat)
    requires RunOk(r) && c.maxSettleEvents > 0
    ensures var start := Apply(r, effect); var q := SettleIn(c, depth, start, rounds);
      && start.state.world == effect.world && start.trace == r.trace && start.state.now == r.state.now
      && (q.Some? ==> Handled(r, effect, q.value))
  {
    hide SettleIn, RunOk, ScheduleAll, ItemOf;
    var start := Apply(r, effect);
    RequestsAreQueued(r.state.(world := effect.world), effect.requests);
    ApplyContinues(r, effect);
    SettleContinues(c, depth, start, rounds);
    var q := SettleIn(c, depth, start, rounds);
    if q.Some? {
      forall k | 0 <= k < |effect.requests| ensures
        var item := ItemOf(r.state, effect.requests, k);
        if effect.requests[k].delay == 0 then Dispatched(|r.trace|, q.value.trace, item.event) else item in q.value.state.queue
      {
        var item := ItemOf(r.state, effect.requests, k);
        SameItem(r.state, effect.world, effect.requests, k);
        var i :| 0 <= i < |start.state.queue| && start.state.queue[i] == item;
        assert start.state.queue[i] in q.value.state.queue || Dispatched(|start.trace|, q.value.trace, start.state.queue[i].event);
      }
    }
  }

  lemma SameItem<W, P>(s: Sim<W, P>, world: W, requests: seq<Request<P>>, k: nat)
    requires k < |requests|
    ensures ItemOf(s.(world := world), requests, k) == ItemOf(s, requests, k)
    ensures ItemOf(s, requests, k).event.time == s.now + requests[k].delay
  {
  }

  /** What was due when a settle began has been dispatched when it ends. */
  lemma DueIsDispatched<W, P>(c: Setup<W, P>, depth: nat, r: Run<W, P>, rounds: nat)
    requires RunOk(r) && c.maxSettleEvents > 0
    ensures var q := SettleIn(c, depth, r, rounds);
      q.Some? ==> forall i :: 0 <= i < |r.state.queue| && r.state.queue[i].event.time == r.state.now ==>
        Dispatched(|r.trace|, q.value.trace, r.state.queue[i].event)
  {
    hide SettleIn, RunOk;
    SettleContinues(c, depth, r, rounds);
  }

  /** A wait of zero emits telemetry, once everything that was due has been dispatched, and
      settles again: what the emission asks for at once is dispatched at this instant, what
      it asks for later is pending, and the second settle starts in the world it left. */
  lemma WaitOfZeroEmits<W, P>(c: Setup<W, P>, depth: nat, r: Run<W, P>)
    requires RunOk(r) && c.maxSettleEvents > 0
    ensures var first := SettleIn(c, depth, r, c.maxSettleEvents); var q := Wait(c, depth, r, 0);
      q.Some? ==>
        && first.Some? && Settled(c, first.value) && first.value.state.now == r.state.now
        && (forall i :: 0 <= i < |r.state.queue| && r.state.queue[i].event.time == r.state.now ==>
              Dispatched(|r.trace|, first.value.trace, r.state.queue[i].event))
        && var effect := c.emit(first.value.state.world, r.state.now);
          && Handled(first.value, effect, q.value)
          && DispatchedWithin(first.value, q.value, r.state.now, r.state.now)
          && var start := Apply(first.value, effect);
            && start.state.world == effect.world && start.trace == first.value.trace && start.state.now == r.state.now
            && SettleIn(c, depth, start, c.maxSettleEvents) == q
  {
    hide SettleIn, RunOk, Settled, Apply, Handled;
    SettleContinues(c, depth, r, c.maxSettleEvents);
    DueIsDispatched(c, depth, r, c.maxSettleEvents);
    var first := SettleIn(c, depth, r, c.maxSettleEvents);
    if first.Some? {
      var effect := c.emit(first.value.state.world, first.value.state.now);
      var start := Apply(first.value, effect);
      EffectIsHandled(c, depth, first.value, effect, c.maxSettleEvents);
      ApplyContinues(first.value, effect);
      SettleContinues(c, depth, start, c.maxSettleEvents);
    }
  }

  /** A settle that finds nothing due drains the bus first: what that asks for is handled. */
  lemma DrainIsHandled<W, P>(c: Setup<W, P>, depth: nat, r: Run<W, P>, rounds: nat)
    requires RunOk(r) && c.maxSettleEvents > 0 && !Due(r.state, r.state.now) && c.drain(r.state.world).Some?
    ensures var effect := c.drain(r.state.world).value; var q := SettleIn(c, depth, r, rounds);
      q.Some? ==>
        && Handled(r, effect, q.value)
        && var start := Apply(r, effect);
          && start.state.world == effect.world && start.trace == r.trace && start.state.now == r.state.now
          && rounds > 0 && SettleIn(c, depth, start, rounds - 1) == q
  {
    hide RunOk, Apply, Handled;
    NoMoreDue(c, depth, r, r.state.now, c.maxSettleEvents);
    if rounds > 0 {
      var effect := c.drain(r.state.world).value;
      assert JumpTo(r, r.state.now) == r;
      EffectIsHandled(c, depth, r, effect, rounds - 1);
    }
  }

  // ---- A longer wait emits nothing ----

  lemma {:induction false} PhasesDoNotEmit<W, P>(
    c: Setup<W, P>, emit: (W, nat) -> Reaction<W, P>, depth: nat, r: Run<W, P>, phases: seq<Phase>, e: Event<P>)
    ensures RunPhases(c.(emit := emit), depth, r, phases, e) == RunPhases(c, depth, r, phases, e)
    decreases depth, 1, |phases|
  {
    hide SettleIn, Apply;
    if phases != [] {
      match phases[0]
      case Act(action) => PhasesDoNotEmit(c, emit, depth, Apply(r, c.act(action, r.state.world, e)), phases[1..], e);
      case Settle =>
        if depth > 0 {
          SettleDoesNotEmit(c, emit, depth - 1, r, c.maxSettleEvents);
          var q := SettleIn(c, depth - 1, r, c.maxSettleEvents);
          if q.Some? {
            PhasesDoNotEmit(c, emit, depth, q.value, phases[1..], e);
          }
        }
    }
  }

  lemma {:induction false} SamePhases<W, P>(c: Setup<W, P>, emit: (W, nat) -> Reaction<W, P>, ids: seq<HandlerId>)
    ensures AllPhases(c.(emit := emit), ids) == AllPhases(c, ids)
  {
    if ids != [] {
      SamePhases(c, emit, ids[1..]);
    }
  }

  lemma {:induction false} DueDoesNotEmit<W, P>(
    c: Setup<W, P>, emit: (W, nat) -> Reaction<W, P>, depth: nat, r: Run<W, P>, horizon: nat, n: nat)
    ensures RunDue(c.(emit := emit), depth, r, horizon, n) == RunDue(c, depth, r, horizon, n)
    decreases depth, 2, n
  {
    hide RunPhases, Pop, AllPhases, HandlersFor;
    if n > 0 && Due(r.state, horizon) {
      var item := r.state.queue[0];
      var phases := AllPhases(c, HandlersFor(r.state, item));
      SamePhases(c, emit, HandlersFor(r.state, item));
      PhasesDoNotEmit(c, emit, depth, Pop(r), phases, item.event);
      var q := RunPhases(c, depth, Pop(r), phases, item.event);
      if q.Some? {
        DueDoesNotEmit(c, emit, depth, q.value, horizon, n - 1);
      }
    }
  }

  lemma {:induction false} SettleDoesNotEmit<W, P>(
    c: Setup<W, P>, emit: (W, nat) -> Reaction<W, P>, depth: nat, r: Run<W, P>, rounds: nat)
    ensures SettleIn(c.(emit := emit), depth, r, rounds) == SettleIn(c, depth, r, rounds)
    decreases depth, 3, rounds
  {
    hide RunDue, Apply;
    if rounds > 0 {
      var now := r.state.now;
      DueDoesNotEmit(c, emit, depth, r, now, c.maxSettleEvents);
      var q := RunDue(c, depth, r, now, c.maxSettleEvents);
      if q.Some? {
        var after := JumpTo(q.value, now);
        var drained := c.drain(after.state.world);
        if drained.Some? {
          SettleDoesNotEmit(c, emit, depth, Apply(after, drained.value), rounds - 1);
        } else {
          SettleDoesNotEmit(c, emit, depth, after, rounds - 1);
        }
      }
    }
  }

  /** A wait of a positive delay emits nothing itself: whatever an emission would do, the
      wait is the same. */
  lemma LongerWaitDoesNotEmit<W, P>(
    c: Setup<W, P>, emit: (W, nat) -> Reaction<W, P>, depth: nat, r: Run<W, P>, delay: nat)
    requires delay > 0
    ensures Wait(c.(emit := emit), depth, r, delay) == Wait(c, depth, r, delay)
  {
    hide SettleIn, RunDue;
    var target := r.state.now + delay;
    DueDoesNotEmit(c, emit, depth, r, target, c.maxSettleEvents);
    var q := RunDue(c, depth, r, target, c.maxSettleEvents);
    if q.Some? {
      SettleDoesNotEmit(c, emit, depth, JumpTo(q.value, target), c.maxSettleEvents);
    }
  }

  // ---- Handlers that only act ----

  /** Every handler is one action: its own. */
  ghost predicate OnlyActs<W(!new), P(!new)>(c: Setup<W, P>) {
    forall id :: c.phases(id) == [Act(id)]
  }

  function Acting<W, P>(c: Setup<W, P>): Behaviour<W, P> {
    (id: HandlerId, world: W, e: Event<P>) => c.act(id, world, e)
  }

  lemma {:induction false} ActsAreHandlers<W(!new), P(!new)>(c: Setup<W, P>, depth: nat, r: Run<W, P>, ids: seq<HandlerId>, e: Event<P>)
    requires OnlyActs(c)
    ensures RunPhases(c, depth, r, AllPhases(c, ids), e) == Some(Run(RunHandlers(Acting(c), r.state, ids, e), r.trace))
    decreases |ids|
  {
    hide ScheduleAll, RunHandlers;
    if ids == [] {
      NoHandlers(Acting(c), r.state, e);
    } else {
      RunHandlersFirst(Acting(c), r.state, ids, e);
      var next := Apply(r, c.act(ids[0], r.state.world, e));
      assert AllPhases(c, ids) == [Act(ids[0])] + AllPhases(c, ids[1..]);
      assert AllPhases(c, ids)[1..] == AllPhases(c, ids[1..]);
      ActsAreHandlers(c, depth, next, ids[1..], e);
    }
  }

  /** With handlers that only act, running what is due is the engine's own run. */
  lemma {:induction false} DueIsEngineRun<W(!new), P(!new)>(c: Setup<W, P>, depth: nat, r: Run<W, P>, horizon: nat, n: nat)
    requires OnlyActs(c)
    ensures var q := RunN(Acting(c), r.state, horizon, n); var u := RunUntil(Acting(c), r.state, horizon, n);
      && RunDue(c, depth, r, horizon, n) == Some(Run(q.state, r.trace + q.trace))
      && JumpTo(Run(q.state, r.trace + q.trace), horizon) == Run(u.state, r.trace + u.trace)
    decreases n
  {
    hide RunHandlers, HandlersFor, RunPhases, AllPhases;
    if n == 0 {
      assert r.trace + [] == r.trace;
    } else if Due(r.state, horizon) {
      var b := Acting(c);
      var item := r.state.queue[0];
      ActsAreHandlers(c, depth, Pop(r), HandlersFor(r.state, item), item.event);
      var next := Run(RunNext(b, r.state), r.trace + [item.event]);
      DueIsEngineRun(c, depth, next, horizon, n - 1);
      RunsAppend(b, r.state, horizon, 1, n - 1);
      var one := RunN(b, r.state, horizon, 1);
      assert RunN(b, r.state, horizon, 0) == Run(r.state, []);
      assert one == Run(RunNext(b, r.state), [item.event]);
      var rest := RunN(b, one.state, horizon, n - 1);
      assert r.trace + [item.event] + rest.trace == r.trace + ([item.event] + rest.trace);
    } else {
      NothingDueStops(Acting(c), r.state, horizon, n);
      assert r.trace + [] == r.trace;
    }
  }

  /** A handler that ends by settling leaves everything settled. */
  lemma {:induction false} SettlingHandlerSettles<W, P>(
    c: Setup<W, P>, depth: nat, r: Run<W, P>, phases: seq<Phase>, e: Event<P>)
    requires RunOk(r) && c.maxSettleEvents > 0 && phases != [] && phases[|phases| - 1] == Settle
    ensures var q := RunPhases(c, depth, r, phases, e); q.Some? ==> Settled(c, q.value)
    decreases |phases|
  {
    hide RunOk, Apply, SettleIn, Settled;
    match phases[0]
    case Act(action) =>
      var effect := c.act(action, r.state.world, e);
      ApplyContinues(r, effect);
      SettlingHandlerSettles(c, depth, Apply(r, effect), phases[1..], e);
    case Settle =>
      if depth > 0 {
        SettleContinues(c, depth - 1, r, c.maxSettleEvents);
        var q := SettleIn(c, depth - 1, r, c.maxSettleEvents);
        if q.Some? && |phases| > 1 {
          SettlingHandlerSettles(c, depth, q.value, phases[1..], e);
        }
      }
  }

  // ---- When the limit on events stops a wait ----

  /** A wait that reaches its limit on events raises exactly when something is still due
      and the last event it dispatched lies before its end. If that event is at its end,
      the wait goes on to settle, whatever else is due. */
  lemma WaitStops<W, P>(c: Setup<W, P>, depth: nat, r: Run<W, P>, delay: nat)
    requires RunOk(r) && c.maxSettleEvents > 0 && delay > 0
    ensures var target := r.state.now + delay; var q := RunDue(c, depth, r, target, c.maxSettleEvents);
      q.Some? ==>
        && (Due(q.value.state, target) ==> |r.trace| < |q.value.trace|)
        && Wait(c, depth, r, delay) ==
             if Due(q.value.state, target) && q.value.trace[|q.value.trace| - 1].time < target then None
             else SettleIn(c, depth, JumpTo(q.value, target), c.maxSettleEvents)
  {
    hide SettleIn, RunDue, RunOk;
    DueContinues(c, depth, r, r.state.now + delay, c.maxSettleEvents);
  }

  /** Handlers that do nothing, and a bus that stays empty. */
  ghost predicate Quiet<W(!new), P(!new)>(c: Setup<W, P>) {
    (forall id :: c.phases(id) == []) && forall world :: c.drain(world) == None
  }

  lemma {:induction false} QuietPhases<W(!new), P(!new)>(c: Setup<W, P>, ids: seq<HandlerId>)
    requires Quiet(c)
    ensures AllPhases(c, ids) == []
  {
    if ids != [] {
      QuietPhases(c, ids[1..]);
    }
  }

  lemma QuietDue<W(!new), P(!new)>(c: Setup<W, P>, depth: nat, r: Run<W, P>, horizon: nat, n: nat)
    requires Quiet(c) && n > 0 && Due(r.state, horizon)
    ensures RunDue(c, depth, r, horizon, n) == RunDue(c, depth, Pop(r), horizon, n - 1)
  {
    hide Pop, HandlersFor;
    QuietPhases(c, HandlersFor(r.state, r.state.queue[0]));
  }

  /** So a wait may dispatch more than its limit of events: of three events at its end and
      a limit of two, it dispatches two, does not raise, and settles the third. */
  lemma LimitReachedAtTheEnd<W(!new), P(!new)>(c: Setup<W, P>, depth: nat, r: Run<W, P>, delay: nat)
    requires Quiet(c) && c.maxSettleEvents == 2 && delay > 0 && |r.state.queue| == 3
    requires forall i :: 0 <= i < 3 ==> r.state.queue[i].event.time == r.state.now + delay
    ensures var target := r.state.now + delay; var q := RunDue(c, depth, r, target, 2);
      && q.Some? && Due(q.value.state, target) && |q.value.trace| == |r.trace| + 2
      && Wait(c, depth, r, delay).Some?
      && Wait(c, depth, r, delay).value.trace
         == r.trace + [r.state.queue[0].event, r.state.queue[1].event, r.state.queue[2].event]
  {
    hide RunDue, SettleIn;
    var target := r.state.now + delay;
    var one, two, three := Pop(r), Pop(Pop(r)), Pop(Pop(Pop(r)));
    QuietDue(c, depth, r, target, 2);
    QuietDue(c, depth, one, target, 1);
    NoMoreDue(c, depth, two, target, 0);
    QuietDue(c, depth, two, target, 2);
    NoMoreDue(c, depth, three, target, 1);
    SettleRound(c, depth, two, 2);
    NoMoreDue(c, depth, three, target, 2);
    SettleRound(c, depth, three, 1);
  }

  lemma NoMoreDue<W, P>(c: Setup<W, P>, depth: nat, r: Run<W, P>, horizon: nat, n: nat)
    requires n == 0 || !Due(r.state, horizon)
    ensures RunDue(c, depth, r, horizon, n) == Some(r)
  {
  }

  lemma SettleRound<W(!new), P(!new)>(c: Setup<W, P>, depth: nat, r: Run<W, P>, rounds: nat)
    requires Quiet(c) && rounds > 0 && RunDue(c, depth, r, r.state.now, c.maxSettleEvents).Some?
    ensures var after := JumpTo(RunDue(c, depth, r, r.state.now, c.maxSettleEvents).value, r.state.now);
      SettleIn(c, depth, r, rounds) == if |after.trace| == |r.trace| then Some(after) else SettleIn(c, depth, after, rounds - 1)
  {
    hide RunDue;
  }

  // ---- The nesting bound ----

  lemma {:induction false} PhasesAtAnyDepth<W, P>(
    c: Setup<W, P>, depth: nat, deeper: nat, r: Run<W, P>, phases: seq<Phase>, e: Event<P>)
    requires depth <= deeper && RunPhases(c, depth, r, phases, e).Some?
    ensures RunPhases(c, deeper, r, phases, e) == RunPhases(c, depth, r, phases, e)
    decreases depth, 1, |phases|
  {
    hide SettleIn, Apply;
    if phases != [] {
      match phases[0]
      case Act(action) => PhasesAtAnyDepth(c, depth, deeper, Apply(r, c.act(action, r.state.world, e)), phases[1..], e);
      case Settle =>
        SettleAtAnyDepth(c, depth - 1, deeper - 1, r, c.maxSettleEvents);
        PhasesAtAnyDepth(c, depth, deeper, SettleIn(c, depth - 1, r, c.maxSettleEvents).value, phases[1..], e);
    }
  }

  lemma {:induction false} DueAtAnyDepth<W, P>(c: Setup<W, P>, depth: nat, deeper: nat, r: Run<W, P>, horizon: nat, n: nat)
    requires depth <= deeper && RunDue(c, depth, r, horizon, n).Some?
    ensures RunDue(c, deeper, r, horizon, n) == RunDue(c, depth, r, horizon, n)
    decreases depth, 2, n
  {
    hide RunPhases, Pop, AllPhases, HandlersFor;
    if n > 0 && Due(r.state, horizon) {
      var item := r.state.queue[0];
      var phases := AllPhases(c, HandlersFor(r.state, item));
      PhasesAtAnyDepth(c, depth, deeper, Pop(r), phases, item.event);
      DueAtAnyDepth(c, depth, deeper, RunPhases(c, depth, Pop(r), phases, item.event).value, horizon, n - 1);
    }
  }

  /** The bound on nesting only decides whether a settle ends, never how. */
  lemma {:induction false} SettleAtAnyDepth<W, P>(c: Setup<W, P>, depth: nat, deeper: nat, r: Run<W, P>, rounds: nat)
    requires depth <= deeper && SettleIn(c, depth, r, rounds).Some?
    ensures SettleIn(c, deeper, r, rounds) == SettleIn(c, depth, r, rounds)
    decreases depth, 3, rounds
  {
    hide RunDue, Apply;
    var now := r.state.now;
    DueAtAnyDepth(c, depth, deeper, r, now, c.maxSettleEvents);
    var after := JumpTo(RunDue(c, depth, r, now, c.maxSettleEvents).value, now);
    var drained := c.drain(after.state.world);
    if drained.Some? {
      SettleAtAnyDepth(c, depth, deeper, Apply(after, drained.value), rounds - 1);
    } else if |after.trace| != |r.trace| {
      SettleAtAnyDepth(c, depth, deeper, after, rounds - 1);
    }
  }

  // ---- Polling an assertion ----

  /** An expectation about one signal: its latest observed value, if any, and what the
      operator accepts. */
  datatype Assertion<!W, !V, P> = Assertion(
    read: W -> Option<V>, accepts: V -> bool, timeout: nat,
    /** The payload of the event that reports the verdict. */
    report: bool -> P)
  {
    predicate Holds(world: W) {
      read(world).Some? && accepts(read(world).value)
    }
  }

  /** The next instant an assertion looks at: the next event, or its deadline. */
  function NextStop<W, P>(s: Sim<W, P>, deadline: nat): nat {
    if s.queue == [] || deadline < s.queue[0].event.time then deadline else s.queue[0].event.time
  }

  /** The state an assertion looks at after `k` waits. */
  function Polled<W, P>(c: Setup<W, P>, depth: nat, r: Run<W, P>, deadline: nat, k: nat): Option<Run<W, P>> {
    if k == 0 then Some(r)
    else
      var before := Polled(c, depth, r, deadline, k - 1);
      if before.None? || NextStop(before.value.state, deadline) < before.value.state.now then None
      else Wait(c, depth, before.value, NextStop(before.value.state, deadline) - before.value.state.now)
  }

  /** Each look after the first is at a settled instant, no earlier than the one before
      it, and not after the deadline; whatever is dispatched between two looks happens at
      the instant of the later one. */
  lemma {:induction false} PollingIsTight<W, P>(c: Setup<W, P>, depth: nat, r: Run<W, P>, deadline: nat, k: nat)
    requires RunOk(r) && r.state.now <= deadline && c.maxSettleEvents > 0
    ensures var q := Polled(c, depth, r, deadline, k);
      q.Some? ==> Continues(r, q.value) && q.value.state.now <= deadline && (k > 0 ==> Settled(c, q.value))
    ensures k > 0 && Polled(c, depth, r, deadline, k).Some? ==>
      var before := Polled(c, depth, r, deadline, k - 1);
      && before.Some?
      && var p, q := before.value, Polled(c, depth, r, deadline, k).value;
        && p.state.now <= q.state.now == NextStop(p.state, deadline)
        && DispatchedWithin(p, q, q.state.now, q.state.now)
  {
    hide Wait, RunOk, Settled;
    if k == 0 {
      Reflexive(r);
    } else {
      PollingIsTight(c, depth, r, deadline, k - 1);
      var before := Polled(c, depth, r, deadline, k - 1);
      if before.Some? && NextStop(before.value.state, deadline) >= before.value.state.now {
        var delay := NextStop(before.value.state, deadline) - before.value.state.now;
        WaitContinues(c, depth, before.value, delay);
        if Wait(c, depth, before.value, delay).Some? {
          ContinuesTrans(r, before.value, Wait(c, depth, before.value, delay).value);
        }
      }
    }
  }

  /** Look `k` neither passes nor is the last one allowed. */
  ghost predicate Undecided<W, P, V>(
    c: Setup<W, P>, depth: nat, r: Run<W, P>, deadline: nat, a: Assertion<W, V, P>, k: nat)
  {
    var look := Polled(c, depth, r, deadline, k);
    look.Some? && !a.Holds(look.value.state.world) && look.value.state.now < deadline
  }

  /** Look `k` is the first that passes or is at the deadline. */
  ghost predicate DecidedAt<W, P, V>(
    c: Setup<W, P>, depth: nat, r: Run<W, P>, deadline: nat, a: Assertion<W, V, P>, k: nat)
  {
    var look := Polled(c, depth, r, deadline, k);
    && look.Some? && look.value.state.now <= deadline
    && (a.Holds(look.value.state.world) || look.value.state.now == deadline)
    && forall j :: 0 <= j < k ==> Undecided(c, depth, r, deadline, a, j)
  }

  /** The verdict is scheduled as an event of the current instant. */
  function Reported<W, P>(r: Run<W, P>, payload: P): Run<W, P> {
    Run(Push(r.state, r.state.now, AssertionEvent, payload, None), r.trace)
  }

  function Verdict<W, P>(world: W, payload: P): Reaction<W, P> {
    Reaction(world, [Request(0, AssertionEvent, payload, None)])
  }

  lemma ReportedIsApplied<W, P>(r: Run<W, P>, payload: P)
    ensures Apply(r, Verdict(r.state.world, payload)) == Reported(r, payload)
  {
    var requests := [Request(0, AssertionEvent, payload, None)];
    var s := r.state.(world := r.state.world);
    assert requests[..0] == [] && ScheduleAll(s, requests[..0]) == s;
    assert ScheduleAll(s, requests) == Push(s, s.now + 0, AssertionEvent, payload, None);
  }

  /** The settle that follows a verdict dispatches it, with the next sequence number. */
  lemma VerdictIsDispatched<W, P>(c: Setup<W, P>, depth: nat, r: Run<W, P>, payload: P, rounds: nat)
    requires RunOk(r) && c.maxSettleEvents > 0
    ensures var q := SettleIn(c, depth, Reported(r, payload), rounds);
      q.Some? ==> Dispatched(|r.trace|, q.value.trace, Event(r.state.now, r.state.nextSequence, AssertionEvent, payload))
  {
    hide SettleIn, RunOk, Apply, Reported;
    var effect := Verdict(r.state.world, payload);
    ReportedIsApplied(r, payload);
    EffectIsHandled(c, depth, r, effect, rounds);
    assert effect.requests[0].delay == 0;
  }

  /** Once settled, whatever is pending lies strictly ahead. */
  lemma PendingIsLater<W, P>(c: Setup<W, P>, r: Run<W, P>, looks: nat)
    requires RunOk(r) && (looks > 0 ==> Settled(c, r))
    ensures r.state.queue != [] ==>
      r.state.now <= r.state.queue[0].event.time && (looks > 0 ==> r.state.now < r.state.queue[0].event.time)
  {
  }
}
