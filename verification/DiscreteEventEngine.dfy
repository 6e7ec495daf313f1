/** The engine object, proved to compute what Engine.dfy describes. */
module DiscreteEventEngine {
  import opened Common
  import opened Engine

  class DiscreteEventEngine<W(0), P> {
    const behave: Behaviour<W, P>
    var now: nat
    var nextSequence: nat
    /** The heap, kept in dispatch order. */
    var queue: seq<Queued<P>>
    var handlers: map<EventKind, seq<HandlerId>>
    /** Everything the handlers act on. */
    var world: W

    ghost function View(): Sim<W, P>
      reads this
    {
      Sim(now, nextSequence, queue, handlers, world)
    }

    constructor (behave: Behaviour<W, P>, world: W, startTime: nat)
      ensures this.behave == behave
      ensures View() == Sim(startTime, 0, [], map[], world) && RunOk(Run(View(), []))
    {
      this.behave, this.world := behave, world;
      now, nextSequence, queue, handlers := startTime, 0, [], map[];
    }

    method AddHandler(kind: EventKind, id: HandlerId)
      modifies this
      ensures View() == old(View()).(handlers := old(handlers)[kind :=
        (if kind in old(handlers) then old(handlers)[kind] else []) + [id]])
    {
      handlers := handlers[kind := (if kind in handlers then handlers[kind] else []) + [id]];
    }

    /** Schedule one event at an absolute time. */
    method ScheduleAt(time: nat, kind: EventKind, payload: P, handler: Option<HandlerId>)
      returns (r: Result<Event<P>, EngineError>)
      modifies this
      ensures r == if time < old(now) then Err(ScheduledInPast)
                   else Ok(Event(time, old(nextSequence), kind, payload))
      ensures View() == match Engine.ScheduleAt(old(View()), time, kind, payload, handler)
        case Ok(s) => s
        case Err(_) => old(View())
    {
      if time < now {
        return Err(ScheduledInPast);
      }
      var event := Event(time, nextSequence, kind, payload);
      nextSequence := nextSequence + 1;
      HeapPush(Queued(event, handler));
      r := Ok(event);
    }

    /** Put an item where it belongs, after every item it does not precede. */
    method HeapPush(item: Queued<P>)
      modifies this`queue
      ensures queue == Insert(old(queue), item)
    {
      hide Insert;
      var k := 0;
      while k < |queue| && !Precedes(item.event, queue[k].event)
        invariant queue == old(queue) && k <= |queue|
        invariant Insert(queue, item) == queue[..k] + Insert(queue[k..], item)
      {
        InsertFurther(queue, k, item);
        k := k + 1;
      }
      InsertHere(queue[k..], item);
      assert queue[..k] + ([item] + queue[k..]) == queue[..k] + [item] + queue[k..];
      queue := queue[..k] + [item] + queue[k..];
    }

    method ScheduleAfter(delay: nat, kind: EventKind, payload: P, handler: Option<HandlerId>) returns (event: Event<P>)
      modifies this
      ensures event == Event(old(now) + delay, old(nextSequence), kind, payload)
      ensures View() == Push(old(View()), old(now) + delay, kind, payload, handler)
    {
      var r := ScheduleAt(now + delay, kind, payload, handler);
      event := r.value;
    }

    /** Run one handler: change the world, then schedule what it asked for. */
    method Call(id: HandlerId, event: Event<P>)
      modifies this
      ensures View() == RunHandler(behave, old(View()), id, event)
    {
      hide Push;
      var reaction := behave(id, world, event);
      world := reaction.world;
      ghost var start := View();
      var requests := reaction.requests;
      for i := 0 to |requests|
        invariant View() == ScheduleAll(start, requests[..i])
      {
        assert requests[..i + 1][..i] == requests[..i];
        var q := requests[i];
        var _ := ScheduleAfter(q.delay, q.kind, q.payload, q.handler);
      }
      assert requests[..|requests|] == requests;
    }

    /** Run the one-shot handler, then the handlers registered for the kind. */
    method Dispatch(item: Queued<P>)
      modifies this
      ensures View() == RunHandlers(behave, old(View()), HandlersFor(old(View()), item), item.event)
    {
      hide RunHandler;
      ghost var start := View();
      var registered := if item.event.kind in handlers then handlers[item.event.kind] else [];
      var ids := (if item.handler.Some? then [item.handler.value] else []) + registered;
      for i := 0 to |ids|
        invariant View() == RunHandlers(behave, start, ids[..i], item.event)
      {
        assert ids[..i + 1][..i] == ids[..i];
        Call(ids[i], item.event);
      }
      assert ids[..|ids|] == ids;
    }

    /** Dispatch the next event, jumping time to it. */
    method RunNext() returns (event: Option<Event<P>>)
      modifies this
      ensures if old(queue) == [] then event == None && View() == old(View())
              else event == Some(old(queue)[0].event) && View() == Engine.RunNext(behave, old(View()))
    {
      hide RunHandlers;
      if queue == [] {
        return None;
      }
      var item := queue[0];
      queue := queue[1..];
      now := item.event.time;
      Dispatch(item);
      event := Some(item.event);
    }

    /** Dispatch the events due at or before `horizon`, then jump there. Without a
        limit on events the run must end, by itself, after some number of them. */
    method RunUntil(horizon: nat, maxEvents: Option<nat>, ghost enough: nat)
      returns (r: Result<seq<Event<P>>, EngineError>)
      requires maxEvents.None? ==> Reaches(behave, View(), horizon, enough)
      modifies this
      ensures if horizon < old(now) then r == Err(RunsBackward) && View() == old(View())
              else var n := if maxEvents.Some? then maxEvents.value else enough;
                r.Ok? && Run(View(), r.value) == Engine.RunUntil(behave, old(View()), horizon, n)
    {
      hide Engine.RunNext, RunN;
      if horizon < now {
        return Err(RunsBackward);
      }
      var dispatched := [];
      var stoppedByLimit := false;
      ghost var start := View();
      ghost var n := if maxEvents.Some? then maxEvents.value else enough;
      RunNothing(behave, start, horizon);
      while queue != [] && queue[0].event.time <= horizon && !stoppedByLimit
        invariant |dispatched| <= n
        invariant Run(View(), dispatched) == RunN(behave, start, horizon, |dispatched|)
        invariant stoppedByLimit ==> |dispatched| == n && Due(View(), horizon)
        decreases n - |dispatched|, !stoppedByLimit
      {
        if maxEvents.Some? && |dispatched| == maxEvents.value {
          stoppedByLimit := true;
        } else {
          NotYetReached(behave, start, horizon, |dispatched|, n);
          RunOneMore(behave, start, horizon, |dispatched|);
          var event := RunNext();
          dispatched := dispatched + [event.value];
        }
      }
      if !stoppedByLimit {
        RunIsOver(behave, start, horizon, |dispatched|, n);
        now := horizon;
      }
      r := Ok(dispatched);
    }

    /** Dispatch events until there are none, or `maxEvents` of them. Without a limit the
        run must end, by itself, after some number of events. */
    method RunUntilIdle(maxEvents: Option<nat>, ghost enough: nat) returns (dispatched: seq<Event<P>>)
      requires maxEvents.None? ==> RunIdle(behave, View(), enough).state.queue == []
      modifies this
      ensures var n := if maxEvents.Some? then maxEvents.value else enough;
        Run(View(), dispatched) == RunIdle(behave, old(View()), n)
    {
      hide Engine.RunNext, RunIdle;
      dispatched := [];
      var remaining := maxEvents;
      ghost var start := View();
      ghost var n := if maxEvents.Some? then maxEvents.value else enough;
      IdleNothing(behave, start);
      while queue != []
        invariant |dispatched| <= n && Run(View(), dispatched) == RunIdle(behave, start, |dispatched|)
        invariant remaining == if maxEvents.Some? then Some(maxEvents.value - |dispatched|) else None
        decreases n - |dispatched|
      {
        if remaining.Some? {
          if remaining.value == 0 {
            break;
          }
          remaining := Some(remaining.value - 1);
        }
        IdleNotYet(behave, start, |dispatched|, n);
        IdleOneMore(behave, start, |dispatched|);
        var event := RunNext();
        dispatched := dispatched + [event.value];
      }
      IdleIsOver(behave, start, |dispatched|, n);
    }

    /** Advance time without dispatching events. */
    method AdvanceTo(target: nat) returns (r: Result<(), EngineError>)
      modifies this
      ensures match Engine.AdvanceTo(old(View()), target)
        case Ok(s) => r == Ok(()) && View() == s
        case Err(e) => r == Err(e) && View() == old(View())
    {
      if target < now {
        return Err(RunsBackward);
      }
      if queue != [] && queue[0].event.time < target {
        return Err(SkipsPending);
      }
      now := target;
      r := Ok(());
    }
  }

  lemma InsertFurther<P>(queue: seq<Queued<P>>, k: nat, item: Queued<P>)
    requires k < |queue| && !Precedes(item.event, queue[k].event)
    ensures queue[..k] + Insert(queue[k..], item) == queue[..k + 1] + Insert(queue[k + 1..], item)
  {
    hide Precedes;
    assert queue[k..][1..] == queue[k + 1..];
    assert Insert(queue[k..], item) == [queue[k]] + Insert(queue[k + 1..], item);
  }

  lemma InsertHere<P>(rest: seq<Queued<P>>, item: Queued<P>)
    requires rest != [] ==> Precedes(item.event, rest[0].event)
    ensures Insert(rest, item) == [item] + rest
  {
  }

  lemma IdleNothing<W, P>(b: Behaviour<W, P>, s: Sim<W, P>)
    ensures RunIdle(b, s, 0) == Run(s, [])
  {
  }

  lemma IdleOneMore<W, P>(b: Behaviour<W, P>, s: Sim<W, P>, n: nat)
    ensures var r := RunIdle(b, s, n);
      RunIdle(b, s, n + 1) == if r.state.queue == [] then r else Run(RunNext(b, r.state), r.trace + [r.state.queue[0].event])
  {
  }

  /** Once idle, nothing more happens. */
  lemma {:induction false} IdleIsOver<W, P>(b: Behaviour<W, P>, s: Sim<W, P>, m: nat, n: nat)
    requires m <= n && (m < n ==> RunIdle(b, s, m).state.queue == [])
    ensures RunIdle(b, s, n) == RunIdle(b, s, m)
  {
    if m < n {
      IdleIsOver(b, s, m, n - 1);
    }
  }

  lemma IdleNotYet<W, P>(b: Behaviour<W, P>, s: Sim<W, P>, m: nat, n: nat)
    requires m <= n && RunIdle(b, s, m).state.queue != []
    ensures RunIdle(b, s, n).state.queue == [] ==> m < n
  {
  }

  lemma RunNothing<W, P>(b: Behaviour<W, P>, s: Sim<W, P>, horizon: nat)
    ensures RunN(b, s, horizon, 0) == Run(s, [])
  {
  }

  lemma RunOneMore<W, P>(b: Behaviour<W, P>, s: Sim<W, P>, horizon: nat, n: nat)
    ensures RunN(b, s, horizon, n + 1) == Step(b, RunN(b, s, horizon, n), horizon)
  {
  }

  /** A run in which something is still due has not used up its events, unless it was
      cut off. */
  lemma NotYetReached<W, P>(b: Behaviour<W, P>, s: Sim<W, P>, horizon: nat, m: nat, n: nat)
    requires m <= n && Due(RunN(b, s, horizon, m).state, horizon)
    ensures Reaches(b, s, horizon, n) ==> m < n
  {
  }

  lemma RunIsOver<W, P>(b: Behaviour<W, P>, s: Sim<W, P>, horizon: nat, m: nat, n: nat)
    requires m <= n && !Due(RunN(b, s, horizon, m).state, horizon)
    ensures RunN(b, s, horizon, n) == RunN(b, s, horizon, m)
  {
    RunsAppend(b, s, horizon, m, n - m);
    NothingDueStops(b, RunN(b, s, horizon, m).state, horizon, n - m);
    var r := RunN(b, s, horizon, m);
    assert r.trace + [] == r.trace;
  }
}
