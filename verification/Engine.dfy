/** The discrete-event engine as functions: scheduling, dispatch and runs, and the
    order they guarantee. */
module Engine {
  import opened Common

  datatype EventKind = TimerEvent | BusEvent | TelemetryEvent | CommandEvent | FaultEvent | AssertionEvent

  datatype Event<P> = Event(time: nat, sequence: nat, kind: EventKind, payload: P)

  /** Dispatch order: by time, then by the order of scheduling. */
  predicate Precedes<P, Q>(a: Event<P>, b: Event<Q>) {
    a.time < b.time || (a.time == b.time && a.sequence < b.sequence)
  }

  type HandlerId = nat

  /** A queued event and its one-shot handler. */
  datatype Queued<P> = Queued(event: Event<P>, handler: Option<HandlerId>)

  /** What a handler asks the engine to schedule. */
  datatype Request<P> = Request(delay: nat, kind: EventKind, payload: P, handler: Option<HandlerId>)

  /** The effect of running one handler on everything outside the engine. */
  datatype Reaction<W, P> = Reaction(world: W, requests: seq<Request<P>>)

  /** What each handler does. The engine's time, when a handler runs, is the time of
      the event it is given. */
  type Behaviour<!W, !P> = (HandlerId, W, Event<P>) -> Reaction<W, P>

  /** The pending events, in dispatch order, and the world the handlers act on. */
  datatype Sim<W, P> = Sim(
    now: nat, nextSequence: nat, queue: seq<Queued<P>>,
    handlers: map<EventKind, seq<HandlerId>>, world: W)

  datatype EngineError = ScheduledInPast | RunsBackward | SkipsPending

  // ---- Scheduling ----

  /** Put an item in its place: after every item it does not precede. */
  function Insert<P>(queue: seq<Queued<P>>, item: Queued<P>): seq<Queued<P>> {
    if queue == [] then [item]
    else if Precedes(item.event, queue[0].event) then [item] + queue
    else [queue[0]] + Insert(queue[1..], item)
  }

  function Push<W, P>(s: Sim<W, P>, time: nat, kind: EventKind, payload: P, handler: Option<HandlerId>): Sim<W, P> {
    s.(nextSequence := s.nextSequence + 1,
       queue := Insert(s.queue, Queued(Event(time, s.nextSequence, kind, payload), handler)))
  }

  function ScheduleAt<W, P>(s: Sim<W, P>, time: nat, kind: EventKind, payload: P, handler: Option<HandlerId>)
    : Result<Sim<W, P>, EngineError>
  {
    if time < s.now then Err(ScheduledInPast) else Ok(Push(s, time, kind, payload, handler))
  }

  function ScheduleAll<W, P>(s: Sim<W, P>, requests: seq<Request<P>>): Sim<W, P> {
    if requests == [] then s
    else
      var t := ScheduleAll(s, requests[..|requests| - 1]);
      var q := requests[|requests| - 1];
      Push(t, t.now + q.delay, q.kind, q.payload, q.handler)
  }

  // ---- Dispatch ----

  function RunHandler<W, P>(b: Behaviour<W, P>, s: Sim<W, P>, id: HandlerId, e: Event<P>): Sim<W, P> {
    var r := b(id, s.world, e);
    ScheduleAll(s.(world := r.world), r.requests)
  }

  function RunHandlers<W, P>(b: Behaviour<W, P>, s: Sim<W, P>, ids: seq<HandlerId>, e: Event<P>): Sim<W, P> {
    if ids == [] then s
    else RunHandler(b, RunHandlers(b, s, ids[..|ids| - 1], e), ids[|ids| - 1], e)
  }

  /** The one-shot handler, then the handlers registered for the kind. */
  function HandlersFor<W, P>(s: Sim<W, P>, item: Queued<P>): seq<HandlerId> {
    (if item.handler.Some? then [item.handler.value] else [])
    + if item.event.kind in s.handlers then s.handlers[item.event.kind] else []
  }

  function RunNext<W, P>(b: Behaviour<W, P>, s: Sim<W, P>): Sim<W, P>
    requires s.queue != []
  {
    var item := s.queue[0];
    RunHandlers(b, s.(now := item.event.time, queue := s.queue[1..]), HandlersFor(s, item), item.event)
  }

  /** Handlers run one after the other, first to last. */
  lemma {:induction false} RunHandlersFirst<W, P>(b: Behaviour<W, P>, s: Sim<W, P>, ids: seq<HandlerId>, e: Event<P>)
    requires ids != []
    ensures RunHandlers(b, s, ids, e) == RunHandlers(b, RunHandler(b, s, ids[0], e), ids[1..], e)
    decreases |ids|
  {
    hide RunHandler;
    var n := |ids| - 1;
    if n == 0 {
      assert ids[..0] == [] && ids[1..] == [];
    } else {
      RunHandlersFirst(b, s, ids[..n], e);
      assert ids[..n][1..] == ids[1..][..n - 1];
    }
  }

  lemma NoHandlers<W, P>(b: Behaviour<W, P>, s: Sim<W, P>, e: Event<P>)
    ensures RunHandlers(b, s, [], e) == s
  {
  }

  /** The next event's one-shot handler runs first, at the event's time, and then the
      handlers registered for its kind, in order of registration. */
  lemma OneShotRunsFirst<W, P>(b: Behaviour<W, P>, s: Sim<W, P>)
    requires s.queue != []
    ensures var item := s.queue[0]; var e := item.event;
      var popped := s.(now := e.time, queue := s.queue[1..]);
      var started := if item.handler.Some? then RunHandler(b, popped, item.handler.value, e) else popped;
      RunNext(b, s) == RunHandlers(b, started, if e.kind in s.handlers then s.handlers[e.kind] else [], e)
  {
    hide RunHandlers, RunHandler;
    var item := s.queue[0];
    var registered := if item.event.kind in s.handlers then s.handlers[item.event.kind] else [];
    if item.handler.Some? {
      var ids := [item.handler.value] + registered;
      assert ids[1..] == registered;
      RunHandlersFirst(b, s.(now := item.event.time, queue := s.queue[1..]), ids, item.event);
    } else {
      assert [] + registered == registered;
    }
  }

  // ---- Runs ----

  /** A state and the events dispatched to reach it. */
  datatype Run<W, P> = Run(state: Sim<W, P>, trace: seq<Event<P>>)

  predicate Due<W, P>(s: Sim<W, P>, horizon: nat) {
    s.queue != [] && s.queue[0].event.time <= horizon
  }

  /** One more event due by `horizon`, if there is one. */
  function Step<W, P>(b: Behaviour<W, P>, r: Run<W, P>, horizon: nat): Run<W, P> {
    if Due(r.state, horizon) then Run(RunNext(b, r.state), r.trace + [r.state.queue[0].event]) else r
  }

  /** Up to `n` events due by `horizon`. */
  function RunN<W, P>(b: Behaviour<W, P>, s: Sim<W, P>, horizon: nat, n: nat): Run<W, P> {
    if n == 0 then Run(s, []) else Step(b, RunN(b, s, horizon, n - 1), horizon)
  }

  /** Run to `horizon` with at most `n` events; if they suffice, time jumps there. */
  function RunUntil<W, P>(b: Behaviour<W, P>, s: Sim<W, P>, horizon: nat, n: nat): Run<W, P> {
    var r := RunN(b, s, horizon, n);
    if Due(r.state, horizon) then r else Run(r.state.(now := horizon), r.trace)
  }

  /** Whether `n` events are enough to reach `horizon`. */
  predicate Reaches<W, P>(b: Behaviour<W, P>, s: Sim<W, P>, horizon: nat, n: nat) {
    !Due(RunN(b, s, horizon, n).state, horizon)
  }

  /** Up to `n` events, whatever their times; time stays at the last of them. */
  function RunIdle<W, P>(b: Behaviour<W, P>, s: Sim<W, P>, n: nat): Run<W, P> {
    if n == 0 then Run(s, [])
    else
      var r := RunIdle(b, s, n - 1);
      if r.state.queue == [] then r else Run(RunNext(b, r.state), r.trace + [r.state.queue[0].event])
  }

  function AdvanceTo<W, P>(s: Sim<W, P>, time: nat): Result<Sim<W, P>, EngineError> {
    if time < s.now then Err(RunsBackward)
    else if s.queue != [] && s.queue[0].event.time < time then Err(SkipsPending)
    else Ok(s.(now := time))
  }

  // ---- The order of dispatch ----

  ghost predicate Increasing<P>(trace: seq<Event<P>>) {
    forall i, j :: 0 <= i < j < |trace| ==> Precedes(trace[i], trace[j])
  }

  ghost predicate SortedQueue<P>(queue: seq<Queued<P>>) {
    forall i, j :: 0 <= i < j < |queue| ==> Precedes(queue[i].event, queue[j].event)
  }

  /** The queue is in dispatch order, nothing pending lies before now, and every
      number given out is less than the next one. */
  ghost predicate QueueOk<W, P>(s: Sim<W, P>) {
    && SortedQueue(s.queue)
    && forall i :: 0 <= i < |s.queue| ==> s.now <= s.queue[i].event.time && s.queue[i].event.sequence < s.nextSequence
  }

  /** Everything already dispatched precedes everything pending, and is not in the
      future. */
  ghost predicate After<W, P>(trace: seq<Event<P>>, s: Sim<W, P>) {
    forall i :: 0 <= i < |trace| ==>
      && trace[i].time <= s.now && trace[i].sequence < s.nextSequence
      && forall j :: 0 <= j < |s.queue| ==> Precedes(trace[i], s.queue[j].event)
  }

  ghost predicate RunOk<W, P>(r: Run<W, P>) {
    QueueOk(r.state) && Increasing(r.trace) && After(r.trace, r.state)
  }

  /** Where an item is inserted: before the first item it precedes. */
  lemma {:induction false} InsertPosition<P>(queue: seq<Queued<P>>, item: Queued<P>) returns (k: nat)
    ensures k <= |queue| && Insert(queue, item) == queue[..k] + [item] + queue[k..]
    ensures forall i :: 0 <= i < k ==> !Precedes(item.event, queue[i].event)
    ensures k < |queue| ==> Precedes(item.event, queue[k].event)
  {
    if queue == [] || Precedes(item.event, queue[0].event) {
      k := 0;
    } else {
      var rest := InsertPosition(queue[1..], item);
      k := rest + 1;
      assert queue[..k] == [queue[0]] + queue[1..][..rest] && queue[k..] == queue[1..][rest..];
    }
  }

  lemma InsertKeepsOrder<P>(queue: seq<Queued<P>>, item: Queued<P>, k: nat)
    requires SortedQueue(queue) && k <= |queue|
    requires forall i :: 0 <= i < |queue| ==> queue[i].event.sequence < item.event.sequence
    requires forall i :: 0 <= i < k ==> !Precedes(item.event, queue[i].event)
    requires k < |queue| ==> Precedes(item.event, queue[k].event)
    ensures SortedQueue(queue[..k] + [item] + queue[k..])
  {
    var longer := queue[..k] + [item] + queue[k..];
    assert forall i :: 0 <= i < k ==> longer[i] == queue[i];
    assert forall i :: k < i < |longer| ==> longer[i] == queue[i - 1];
  }

  lemma PushKeepsOrder<W, P>(trace: seq<Event<P>>, s: Sim<W, P>, time: nat, kind: EventKind, payload: P, handler: Option<HandlerId>)
    requires QueueOk(s) && After(trace, s) && s.now <= time
    ensures QueueOk(Push(s, time, kind, payload, handler)) && After(trace, Push(s, time, kind, payload, handler))
    ensures Push(s, time, kind, payload, handler).now == s.now
  {
    hide Insert, SortedQueue;
    var item := Queued(Event(time, s.nextSequence, kind, payload), handler);
    var k := InsertPosition(s.queue, item);
    InsertKeepsOrder(s.queue, item, k);
    var t := Push(s, time, kind, payload, handler);
    assert forall i :: 0 <= i < k ==> t.queue[i] == s.queue[i];
    assert forall i :: k < i < |t.queue| ==> t.queue[i] == s.queue[i - 1];
  }

  lemma {:induction false} ScheduleAllKeepsOrder<W, P>(trace: seq<Event<P>>, s: Sim<W, P>, requests: seq<Request<P>>)
    requires QueueOk(s) && After(trace, s)
    ensures QueueOk(ScheduleAll(s, requests)) && After(trace, ScheduleAll(s, requests))
    ensures ScheduleAll(s, requests).now == s.now && ScheduleAll(s, requests).handlers == s.handlers
  {
    hide QueueOk, After;
    if requests != [] {
      var n := |requests| - 1;
      ScheduleAllKeepsOrder(trace, s, requests[..n]);
      var t := ScheduleAll(s, requests[..n]);
      var q := requests[n];
      PushKeepsOrder(trace, t, t.now + q.delay, q.kind, q.payload, q.handler);
    }
  }

  /** What is queued stays queued, and a pushed item is queued. */
  lemma PushQueues<W, P>(s: Sim<W, P>, time: nat, kind: EventKind, payload: P, handler: Option<HandlerId>)
    ensures var t := Push(s, time, kind, payload, handler);
      && (forall i :: 0 <= i < |s.queue| ==> s.queue[i] in t.queue)
      && Queued(Event(time, s.nextSequence, kind, payload), handler) in t.queue
      && t.now == s.now && t.nextSequence == s.nextSequence + 1 && t.world == s.world && t.handlers == s.handlers
  {
    hide Insert, Precedes;
    var item := Queued(Event(time, s.nextSequence, kind, payload), handler);
    var k := InsertPosition(s.queue, item);
    var queue := Push(s, time, kind, payload, handler).queue;
    assert queue[k] == item;
    forall i | 0 <= i < |s.queue| ensures s.queue[i] in queue {
      assert if i < k then queue[i] == s.queue[i] else queue[i + 1] == s.queue[i];
    }
  }

  /** An event may be scheduled for now or later; it gets the next sequence number, and
      nothing else changes but its place in the queue. */
  lemma ScheduleAtIsExact<W, P>(s: Sim<W, P>, time: nat, kind: EventKind, payload: P, handler: Option<HandlerId>)
    ensures ScheduleAt(s, time, kind, payload, handler).Ok? <==> time >= s.now
    ensures time < s.now ==> ScheduleAt(s, time, kind, payload, handler) == Err(ScheduledInPast)
    ensures time >= s.now ==>
      var t := ScheduleAt(s, time, kind, payload, handler).value;
      var item := Queued(Event(time, s.nextSequence, kind, payload), handler);
      && t.now == s.now && t.world == s.world && t.nextSequence == s.nextSequence + 1
      && t == s.(nextSequence := t.nextSequence, queue := t.queue)
      && item in t.queue && multiset(t.queue) == multiset(s.queue) + multiset{item}
  {
    hide Insert, Precedes;
    var item := Queued(Event(time, s.nextSequence, kind, payload), handler);
    var k := InsertPosition(s.queue, item);
    assert s.queue == s.queue[..k] + s.queue[k..];
    assert Insert(s.queue, item)[k] == item;
  }

  /** The item that request `k` of a handler puts on the queue: requests are numbered in
      order, and a delay counts from now. */
  function ItemOf<W, P>(s: Sim<W, P>, requests: seq<Request<P>>, k: nat): Queued<P>
    requires k < |requests|
  {
    var q := requests[k];
    Queued(Event(s.now + q.delay, s.nextSequence + k, q.kind, q.payload), q.handler)
  }

  lemma {:induction false} RequestsAreQueued<W, P>(s: Sim<W, P>, requests: seq<Request<P>>)
    ensures var t := ScheduleAll(s, requests);
      && (forall i :: 0 <= i < |s.queue| ==> s.queue[i] in t.queue)
      && (forall k :: 0 <= k < |requests| ==> ItemOf(s, requests, k) in t.queue)
      && t.now == s.now && t.nextSequence == s.nextSequence + |requests| && t.world == s.world && t.handlers == s.handlers
  {
    hide Push;
    if requests != [] {
      var n := |requests| - 1;
      RequestsAreQueued(s, requests[..n]);
      var t := ScheduleAll(s, requests[..n]);
      var q := requests[n];
      PushQueues(t, t.now + q.delay, q.kind, q.payload, q.handler);
      assert forall k :: 0 <= k < n ==> ItemOf(s, requests, k) == ItemOf(s, requests[..n], k);
    }
  }

  /** A handler leaves the world its reaction names, with every request queued and nothing
      lost from the queue. */
  lemma HandlerReacts<W, P>(b: Behaviour<W, P>, s: Sim<W, P>, id: HandlerId, e: Event<P>)
    ensures var reaction := b(id, s.world, e); var t := RunHandler(b, s, id, e);
      && t.world == reaction.world && t.now == s.now && t.handlers == s.handlers
      && t.nextSequence == s.nextSequence + |reaction.requests|
      && (forall k :: 0 <= k < |reaction.requests| ==> ItemOf(s, reaction.requests, k) in t.queue)
      && (forall i :: 0 <= i < |s.queue| ==> s.queue[i] in t.queue)
  {
    hide ScheduleAll;
    var reaction := b(id, s.world, e);
    RequestsAreQueued(s.(world := reaction.world), reaction.requests);
    assert forall k :: 0 <= k < |reaction.requests| ==>
      ItemOf(s.(world := reaction.world), reaction.requests, k) == ItemOf(s, reaction.requests, k);
  }

  lemma NewWorldKeepsOrder<W, P>(trace: seq<Event<P>>, s: Sim<W, P>, world: W)
    requires QueueOk(s) && After(trace, s)
    ensures QueueOk(s.(world := world)) && After(trace, s.(world := world))
  {
  }

  lemma {:induction false} HandlersKeepOrder<W, P>(
    b: Behaviour<W, P>, trace: seq<Event<P>>, s: Sim<W, P>, ids: seq<HandlerId>, e: Event<P>)
    requires QueueOk(s) && After(trace, s)
    ensures QueueOk(RunHandlers(b, s, ids, e)) && After(trace, RunHandlers(b, s, ids, e))
    ensures RunHandlers(b, s, ids, e).now == s.now && RunHandlers(b, s, ids, e).handlers == s.handlers
  {
    hide QueueOk, After;
    if ids != [] {
      var n := |ids| - 1;
      HandlersKeepOrder(b, trace, s, ids[..n], e);
      var t := RunHandlers(b, s, ids[..n], e);
      var r := b(ids[n], t.world, e);
      NewWorldKeepsOrder(trace, t, r.world);
      ScheduleAllKeepsOrder(trace, t.(world := r.world), r.requests);
    }
  }

  /** Taking the next event off the queue: it follows everything dispatched before. */
  lemma PopKeepsOrder<W, P>(r: Run<W, P>)
    requires RunOk(r) && r.state.queue != []
    ensures var item := r.state.queue[0];
      var s := r.state.(now := item.event.time, queue := r.state.queue[1..]);
      && r.state.now <= item.event.time
      && QueueOk(s) && Increasing(r.trace + [item.event]) && After(r.trace + [item.event], s)
  {
  }

  lemma RunNextKeepsOrder<W, P>(b: Behaviour<W, P>, r: Run<W, P>)
    requires RunOk(r) && r.state.queue != []
    ensures var e := r.state.queue[0].event; var t := RunNext(b, r.state);
      && RunOk(Run(t, r.trace + [e]))
      && t.now == e.time && r.state.now <= t.now && t.handlers == r.state.handlers
  {
    hide QueueOk, After, Increasing;
    PopKeepsOrder(r);
    var item := r.state.queue[0];
    HandlersKeepOrder(b, r.trace + [item.event], r.state.(now := item.event.time, queue := r.state.queue[1..]),
                      HandlersFor(r.state, item), item.event);
  }

  lemma {:induction false} RunNKeepsOrder<W, P>(b: Behaviour<W, P>, trace: seq<Event<P>>, s: Sim<W, P>, horizon: nat, n: nat)
    requires RunOk(Run(s, trace)) && s.now <= horizon
    ensures var r := RunN(b, s, horizon, n);
      && RunOk(Run(r.state, trace + r.trace)) && s.now <= r.state.now <= horizon
      && forall i :: 0 <= i < |r.trace| ==> s.now <= r.trace[i].time <= horizon
  {
    hide RunOk, RunNext;
    if n == 0 {
      assert trace + [] == trace;
    } else {
      RunNKeepsOrder(b, trace, s, horizon, n - 1);
      var r := RunN(b, s, horizon, n - 1);
      if Due(r.state, horizon) {
        RunNextKeepsOrder(b, Run(r.state, trace + r.trace));
        assert trace + (r.trace + [r.state.queue[0].event]) == (trace + r.trace) + [r.state.queue[0].event];
      }
    }
  }

  lemma LaterKeepsOrder<W, P>(r: Run<W, P>, time: nat)
    requires RunOk(r) && r.state.now <= time
    requires r.state.queue != [] ==> time <= r.state.queue[0].event.time
    ensures RunOk(Run(r.state.(now := time), r.trace))
  {
  }

  lemma RunUntilKeepsOrder<W, P>(b: Behaviour<W, P>, trace: seq<Event<P>>, s: Sim<W, P>, horizon: nat, n: nat)
    requires RunOk(Run(s, trace)) && s.now <= horizon
    ensures var r := RunUntil(b, s, horizon, n);
      && RunOk(Run(r.state, trace + r.trace)) && s.now <= r.state.now <= horizon
      && (Reaches(b, s, horizon, n) ==>
            r.state.now == horizon && forall i :: 0 <= i < |r.state.queue| ==> horizon < r.state.queue[i].event.time)
  {
    hide RunOk, RunN;
    RunNKeepsOrder(b, trace, s, horizon, n);
    var r := RunN(b, s, horizon, n);
    if !Due(r.state, horizon) {
      LaterKeepsOrder(Run(r.state, trace + r.trace), horizon);
      NoneDue(Run(r.state, trace + r.trace), horizon);
    }
  }

  lemma NoneDue<W, P>(r: Run<W, P>, horizon: nat)
    requires RunOk(r) && !Due(r.state, horizon)
    ensures forall i :: 0 <= i < |r.state.queue| ==> horizon < r.state.queue[i].event.time
  {
  }

  /** Advancing is refused exactly if it would go back, or pass over a pending event; it
      may stop right at one. */
  lemma AdvanceIsExact<W, P>(s: Sim<W, P>, time: nat)
    requires QueueOk(s)
    ensures AdvanceTo(s, time) ==
      if time < s.now then Err(RunsBackward)
      else if forall i :: 0 <= i < |s.queue| ==> time <= s.queue[i].event.time then Ok(s.(now := time))
      else Err(SkipsPending)
  {
  }

  lemma {:induction false} RunIdleKeepsOrder<W, P>(b: Behaviour<W, P>, trace: seq<Event<P>>, s: Sim<W, P>, n: nat)
    requires RunOk(Run(s, trace))
    ensures var r := RunIdle(b, s, n); RunOk(Run(r.state, trace + r.trace)) && s.now <= r.state.now
  {
    hide RunOk, RunNext;
    if n == 0 {
      assert trace + [] == trace;
    } else {
      RunIdleKeepsOrder(b, trace, s, n - 1);
      var r := RunIdle(b, s, n - 1);
      if r.state.queue != [] {
        RunNextKeepsOrder(b, Run(r.state, trace + r.trace));
        assert trace + (r.trace + [r.state.queue[0].event]) == (trace + r.trace) + [r.state.queue[0].event];
      }
    }
  }

  /** Running until idle dispatches what running to any horizon does that none of its
      events lies beyond. */
  lemma {:induction false} IdleIsFarHorizon<W, P>(b: Behaviour<W, P>, s: Sim<W, P>, horizon: nat, n: nat)
    requires forall i :: 0 <= i < |RunIdle(b, s, n).trace| ==> RunIdle(b, s, n).trace[i].time <= horizon
    ensures RunN(b, s, horizon, n) == RunIdle(b, s, n)
  {
    hide RunNext;
    if n > 0 {
      var before, r := RunIdle(b, s, n - 1), RunIdle(b, s, n);
      assert forall i :: 0 <= i < |before.trace| ==> before.trace[i] == r.trace[i];
      if before.state.queue != [] {
        assert r.trace[|before.trace|] == before.state.queue[0].event;
      }
      IdleIsFarHorizon(b, s, horizon, n - 1);
    }
  }

  // ---- Jumping equals stepping ----

  lemma {:induction false} RunsAppend<W, P>(b: Behaviour<W, P>, s: Sim<W, P>, horizon: nat, m: nat, k: nat)
    ensures var first := RunN(b, s, horizon, m); var second := RunN(b, first.state, horizon, k);
      RunN(b, s, horizon, m + k) == Run(second.state, first.trace + second.trace)
    decreases k
  {
    hide RunNext;
    var first := RunN(b, s, horizon, m);
    if k == 0 {
      assert first.trace + [] == first.trace;
    } else {
      RunsAppend(b, s, horizon, m, k - 1);
      var second := RunN(b, first.state, horizon, k - 1);
      if Due(second.state, horizon) {
        assert first.trace + second.trace + [second.state.queue[0].event]
          == first.trace + (second.trace + [second.state.queue[0].event]);
      }
    }
  }

  lemma {:induction false} NothingDueStops<W, P>(b: Behaviour<W, P>, s: Sim<W, P>, horizon: nat, k: nat)
    requires !Due(s, horizon)
    ensures RunN(b, s, horizon, k) == Run(s, [])
  {
    if k > 0 {
      NothingDueStops(b, s, horizon, k - 1);
    }
  }

  /** Up to an earlier horizon, a longer run does the same. */
  lemma {:induction false} EarlierHorizon<W, P>(b: Behaviour<W, P>, s: Sim<W, P>, t1: nat, t2: nat, n: nat)
    requires t1 <= t2
    ensures var m := |RunN(b, s, t1, n).trace|;
      m <= n && RunN(b, s, t1, n) == RunN(b, s, t2, m) && (m < n ==> !Due(RunN(b, s, t1, n).state, t1))
  {
    hide RunNext;
    if n > 0 {
      EarlierHorizon(b, s, t1, t2, n - 1);
    }
  }

  /** The engine's time before an event is dispatched does not matter. */
  lemma {:induction false} TimeIsSetByEvents<W, P>(b: Behaviour<W, P>, s: Sim<W, P>, now: nat, horizon: nat, k: nat)
    ensures var r := RunN(b, s, horizon, k);
      RunN(b, s.(now := now), horizon, k) == if r.trace == [] then Run(r.state.(now := now), []) else r
    ensures RunN(b, s, horizon, k).trace == [] ==> RunN(b, s, horizon, k).state == s
  {
    hide RunHandlers, HandlersFor;
    if k > 0 {
      TimeIsSetByEvents(b, s, now, horizon, k - 1);
      SameHandlers(s, s.(now := now));
    }
  }

  lemma SameHandlers<W, P>(s: Sim<W, P>, t: Sim<W, P>)
    requires s.handlers == t.handlers
    ensures forall item: Queued<P> :: HandlersFor(s, item) == HandlersFor(t, item)
  {
  }

  /** Running to `t1` and then to `t2` dispatches the same events, in the same order,
      and leaves the same state as running to `t2` at once. */
  lemma JumpEqualsSteps<W, P>(b: Behaviour<W, P>, s: Sim<W, P>, t1: nat, t2: nat, n: nat)
    requires t1 <= t2 && Reaches(b, s, t2, n)
    ensures var first := RunUntil(b, s, t1, n); var second := RunUntil(b, first.state, t2, n);
      && Reaches(b, s, t1, n) && Reaches(b, first.state, t2, n)
      && RunUntil(b, s, t2, n) == Run(second.state, first.trace + second.trace)
  {
    hide RunN;
    var r := RunN(b, s, t1, n);
    var m := |r.trace|;
    EarlierHorizon(b, s, t1, t2, n);
    assert Reaches(b, s, t1, n);
    RunsAppend(b, s, t2, m, n - m);
    var rest := RunN(b, r.state, t2, n - m);
    RunsAppend(b, r.state, t2, n - m, m);
    NothingDueStops(b, rest.state, t2, m);
    assert rest.trace + [] == rest.trace;
    TimeIsSetByEvents(b, r.state, t1, t2, n);
  }

  // ---- Whole runs of an engine ----

  /** The calls a program makes on an engine. */
  datatype Call<P> =
    | ScheduleCall(time: nat, kind: EventKind, payload: P, handler: Option<HandlerId>)
    | RunNextCall
    | RunUntilCall(horizon: nat, maxEvents: nat)
    | RunIdleCall(limit: nat)
    | AdvanceCall(target: nat)

  /** A call that is refused changes nothing. */
  function Perform<W, P>(b: Behaviour<W, P>, r: Run<W, P>, call: Call<P>): Run<W, P> {
    match call
    case ScheduleCall(time, kind, payload, handler) =>
      var t := ScheduleAt(r.state, time, kind, payload, handler);
      if t.Ok? then Run(t.value, r.trace) else r
    case RunNextCall => if r.state.queue == [] then r else Run(RunNext(b, r.state), r.trace + [r.state.queue[0].event])
    case RunUntilCall(horizon, maxEvents) =>
      if horizon < r.state.now then r
      else var t := RunUntil(b, r.state, horizon, maxEvents); Run(t.state, r.trace + t.trace)
    case RunIdleCall(limit) =>
      var t := RunIdle(b, r.state, limit); Run(t.state, r.trace + t.trace)
    case AdvanceCall(target) =>
      var t := AdvanceTo(r.state, target);
      if t.Ok? then Run(t.value, r.trace) else r
  }

  function PerformAll<W, P>(b: Behaviour<W, P>, r: Run<W, P>, calls: seq<Call<P>>): Run<W, P> {
    if calls == [] then r
    else Perform(b, PerformAll(b, r, calls[..|calls| - 1]), calls[|calls| - 1])
  }

  lemma CallKeepsOrder<W, P>(b: Behaviour<W, P>, r: Run<W, P>, call: Call<P>)
    requires RunOk(r)
    ensures RunOk(Perform(b, r, call)) && r.state.now <= Perform(b, r, call).state.now
  {
    hide QueueOk, After, Increasing, RunNext, RunUntil, RunIdle, Push;
    match call
    case ScheduleCall(time, kind, payload, handler) =>
      if time >= r.state.now {
        PushKeepsOrder(r.trace, r.state, time, kind, payload, handler);
      }
    case RunNextCall =>
      if r.state.queue != [] {
        RunNextKeepsOrder(b, r);
      }
    case RunUntilCall(horizon, maxEvents) =>
      if horizon >= r.state.now {
        RunUntilKeepsOrder(b, r.trace, r.state, horizon, maxEvents);
      }
    case RunIdleCall(limit) => RunIdleKeepsOrder(b, r.trace, r.state, limit);
    case AdvanceCall(target) =>
      if AdvanceTo(r.state, target).Ok? {
        LaterKeepsOrder(r, target);
      }
  }

  /** Over every run of an engine: events are dispatched in strictly increasing
      (time, sequence) order, time never goes back, and nothing pending lies in the past. */
  lemma {:induction false} DispatchIsOrdered<W, P>(b: Behaviour<W, P>, r: Run<W, P>, calls: seq<Call<P>>)
    requires RunOk(r)
    ensures RunOk(PerformAll(b, r, calls)) && r.state.now <= PerformAll(b, r, calls).state.now
  {
    hide RunOk, Perform;
    if calls != [] {
      var n := |calls| - 1;
      DispatchIsOrdered(b, r, calls[..n]);
      CallKeepsOrder(b, PerformAll(b, r, calls[..n]), calls[n]);
    }
  }
}
