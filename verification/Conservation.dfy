/** Where every frame goes: it ends in one completed packet, in one packet still held,
    or is discarded and reported. */
module Conservation {
  import opened Common
  import opened CspV2
  import opened Reassembly

  // ---- Counting frames ----

  function HeldIn(keys: seq<Key>, items: map<Key, Partial>): multiset<CanFrame>
    requires forall k :: k in keys ==> k in items
  {
    if keys == [] then multiset{}
    else multiset(items[keys[0]].frames) + HeldIn(keys[1..], items)
  }

  /** The frames of all packets in progress. */
  function Held(t: Table): multiset<CanFrame>
    requires forall k :: k in t.keys ==> k in t.items
  {
    HeldIn(t.keys, t.items)
  }

  function FramesIn(entry: Option<Partial>): multiset<CanFrame> {
    if entry.None? then multiset{} else multiset(entry.value.frames)
  }

  /** The frames of all completed packets. */
  function CompletedIn(events: seq<Event>): multiset<CanFrame> {
    if events == [] then multiset{}
    else
      var e := events[|events| - 1];
      CompletedIn(events[..|events| - 1]) + CompletedBy(e)
  }

  function CompletedBy(e: Event): multiset<CanFrame> {
    if e.Complete? then multiset(e.packet.frames) else multiset{}
  }

  lemma CompletedInSnoc(events: seq<Event>, e: Event)
    ensures CompletedIn(events + [e]) == CompletedIn(events) + CompletedBy(e)
  {
    assert (events + [e])[..|events|] == events;
  }

  lemma {:induction false} CompletedInAppend(a: seq<Event>, b: seq<Event>)
    ensures CompletedIn(a + b) == CompletedIn(a) + CompletedIn(b)
  {
    hide CompletedIn, CompletedBy;
    if b == [] {
      assert a + b == a;
      NoneCompleted();
    } else {
      var n := |b| - 1;
      CompletedInAppend(a, b[..n]);
      CompletedInSnoc(a + b[..n], b[n]);
      CompletedInSnoc(b[..n], b[n]);
      assert a + b == a + b[..n] + [b[n]] && b == b[..n] + [b[n]];
    }
  }

  lemma NoneCompleted()
    ensures CompletedIn([]) == multiset{}
  {
  }

  lemma {:induction false} NothingCompletedIn(events: seq<Event>)
    requires forall i :: 0 <= i < |events| ==> !events[i].Complete?
    ensures CompletedIn(events) == multiset{}
  {
    if events != [] {
      NothingCompletedIn(events[..|events| - 1]);
    }
  }

  lemma {:induction false} HeldInAgrees(keys: seq<Key>, items: map<Key, Partial>, others: map<Key, Partial>)
    requires forall k :: k in keys ==> k in items && k in others && items[k] == others[k]
    ensures HeldIn(keys, items) == HeldIn(keys, others)
  {
    if keys != [] {
      HeldInAgrees(keys[1..], items, others);
    }
  }

  lemma {:induction false} HeldInAppend(a: seq<Key>, b: seq<Key>, items: map<Key, Partial>)
    requires forall k :: k in a + b ==> k in items
    ensures forall k :: k in a || k in b ==> k in items
    ensures HeldIn(a + b, items) == HeldIn(a, items) + HeldIn(b, items)
  {
    assert forall k :: k in a || k in b ==> k in a + b;
    if a == [] {
      assert a + b == b;
    } else {
      assert (a + b)[1..] == a[1..] + b;
      HeldInAppend(a[1..], b, items);
    }
  }

  lemma {:induction false} HeldInSplit(keys: seq<Key>, items: map<Key, Partial>, chosen: set<Key>)
    requires forall k :: k in keys ==> k in items
    ensures HeldIn(keys, items) == HeldIn(Without(keys, chosen), items) + HeldIn(Within(keys, chosen), items)
  {
    if keys != [] {
      HeldInSplit(keys[1..], items, chosen);
    }
  }

  lemma HeldAfterRemoveAll(t: Table, gone: set<Key>)
    requires t.Valid()
    ensures Held(t) == Held(t.RemoveAll(gone)) + HeldIn(Within(t.keys, gone), t.items)
  {
    HeldInSplit(t.keys, t.items, gone);
    HeldInAgrees(Without(t.keys, gone), t.items, t.items - gone);
  }

  lemma {:induction false} WithinOne(keys: seq<Key>, k: Key)
    requires NoDuplicates(keys)
    ensures Within(keys, {k}) == if k in keys then [k] else []
  {
    if keys != [] {
      WithinOne(keys[1..], k);
      assert k in keys <==> k == keys[0] || k in keys[1..];
    }
  }

  lemma HeldAfterRemove(t: Table, k: Key)
    requires t.Valid()
    ensures Held(t) == Held(t.Remove(k)) + FramesIn(t.Get(k))
  {
    HeldAfterRemoveAll(t, {k});
    WithinOne(t.keys, k);
    if k in t.items {
      assert HeldIn([k], t.items) == multiset(t.items[k].frames);
    }
  }

  lemma HeldAfterReplace(t: Table, k: Key, p: Partial)
    requires t.Valid() && k in t.items
    ensures t.Put(k, p).Valid()
    ensures Held(t.Put(k, p)) + FramesIn(t.Get(k)) == Held(t) + multiset(p.frames)
  {
    hide Held;
    var u := t.Put(k, p);
    HeldAfterRemove(t, k);
    HeldAfterRemove(u, k);
    assert t.items - {k} == u.items - {k};
    assert t.Remove(k) == u.Remove(k);
  }

  lemma HeldAfterAdd(t: Table, k: Key, p: Partial)
    requires t.Valid() && k !in t.items
    ensures t.Put(k, p).Valid()
    ensures Held(t.Put(k, p)) == Held(t) + multiset(p.frames)
  {
    var u := t.Put(k, p);
    HeldInAppend(t.keys, [k], u.items);
    HeldInAgrees(t.keys, t.items, u.items);
    assert HeldIn([k], u.items) == multiset(p.frames);
  }

  lemma HeldAfterSet(t: Table, k: Key, entry: Option<Partial>)
    requires t.Valid()
    ensures t.Set(k, entry).Valid()
    ensures Held(t.Set(k, entry)) + FramesIn(t.Get(k)) == Held(t) + FramesIn(entry)
  {
    hide Held;
    if entry.Some? && k in t.items {
      HeldAfterReplace(t, k, entry.value);
    } else if entry.Some? {
      HeldAfterAdd(t, k, entry.value);
    } else {
      HeldAfterRemove(t, k);
    }
  }

  // ---- One frame ----

  /** Whether feeding `frame` gives up a packet in progress for its key because it
      starts a new one. */
  predicate Restarts(t: Table, frame: CanFrame) {
    frame.isExtendedId && UnpackCanId(frame.canId).begin && FrameKey(frame) in t.items
  }

  /** Whether feeding `frame` first discards the stale packets. */
  predicate Opens(t: Table, frame: CanFrame) {
    frame.isExtendedId && UnpackCanId(frame.canId).begin && FrameKey(frame) !in t.items
  }

  predicate IsOutcome(e: Event, frame: CanFrame) {
    match e
    case Complete(_, last, packet, _, _) => last == frame && packet.frames != [] && packet.frames[|packet.frames| - 1] == frame
    case Pending(_, stored, _, _) => stored == frame
    case Dropped(_, f, reason, _, _, _) => f == Some(frame) && reason != Timeout && reason != Restarted
  }

  /** The keys whose packets have been idle for longer than the timeout, in table order. */
  function IdleKeys(timeout: nat, t: Table, now: int): (keys: seq<Key>)
    ensures forall k :: k in keys <==> k in t.keys && k in t.items && now - t.items[k].lastUsed > timeout
  {
    Within(t.keys, set k | k in t.items && now - t.items[k].lastUsed > timeout)
  }

  /** The packets a frame times out, in table order. */
  function TimedOut(cfg: Config, t: Table, frame: CanFrame, now: int): (keys: seq<Key>)
    ensures forall k :: k in keys ==> k in t.items
  {
    if Opens(t, frame) then IdleKeys(cfg.timeout, t, now) else []
  }

  /** What is reported of each of `keys`: that its packet timed out, when its time was up. */
  function TimeoutsOf(timeout: nat, t: Table, keys: seq<Key>): (events: seq<Event>)
    requires forall k :: k in keys ==> k in t.items
    ensures |events| == |keys|
    ensures forall i :: 0 <= i < |keys| ==> var p := t.items[keys[i]];
      events[i] == Dropped(p.lastUsed + timeout, None, Timeout, Some(p.canFields.sender), Some(p.canFields.destination), None)
  {
    seq(|keys|, i requires 0 <= i < |keys| => var p := t.items[keys[i]];
      Dropped(p.lastUsed + timeout, None, Timeout, Some(p.canFields.sender), Some(p.canFields.destination), None))
  }

  function TimeoutsFor(cfg: Config, t: Table, frame: CanFrame, now: int): seq<Event> {
    TimeoutsOf(cfg.timeout, t, TimedOut(cfg, t, frame, now))
  }

  /** What is reported when `frame` gives up the packet in progress for its key. */
  function RestartReport(frame: CanFrame, now: int): Event {
    var c := UnpackCanId(frame.canId);
    Dropped(now, Some(frame), Restarted, Some(c.sender), Some(c.destination), None)
  }

  function RestartFor(t: Table, frame: CanFrame, now: int): seq<Event> {
    if Restarts(t, frame) then [RestartReport(frame, now)] else []
  }

  lemma RestartIsReported(frame: CanFrame, now: int)
    ensures DropOf(Restarted, frame, now, None) == RestartReport(frame, now)
  {
    hide UnpackCanId;
  }

  /** The keys the program expires, and what it reports of them. */
  lemma StaleAreIdle(timeout: nat, t: Table, now: int)
    requires t.Valid()
    ensures StaleOrder(timeout, t, now) == IdleKeys(timeout, t, now)
    ensures Expire(timeout, t, now).events == TimeoutsOf(timeout, t, IdleKeys(timeout, t, now))
  {
    assert StaleKeys(timeout, t, now) == set k | k in t.items && now - t.items[k].lastUsed > timeout;
  }

  /** The outcome of the frame itself. */
  function OutcomeOf(cfg: Config, t: Table, frame: CanFrame, now: int): Event
    requires Feed(cfg, t, frame, now).events != []
  {
    var events := Feed(cfg, t, frame, now).events;
    events[|events| - 1]
  }

  /** A step with one event, the outcome of `frame`, in which the frames of `before`
      and `frame` are kept or completed unless the outcome is a drop. */
  ghost predicate OneOutcome(before: multiset<CanFrame>, frame: CanFrame, s: Step) {
    && |s.events| == 1 && IsOutcome(s.events[0], frame)
    && FramesIn(s.entry) + CompletedIn(s.events)
       == (if s.events[0].Dropped? then multiset{} else before + multiset{frame})
    && (s.entry.Some? <==> s.events[0].Pending?)
  }

  lemma CompletedInOne(e: Event)
    ensures CompletedIn([e]) == if e.Complete? then multiset(e.packet.frames) else multiset{}
  {
    assert [e][..0] == [];
  }

  lemma ExtendHasOneOutcome(limit: Option<nat>, p: Partial, frame: CanFrame, chunk: bytes, now: int)
    ensures OneOutcome(multiset(p.frames), frame, Extend(limit, p, frame, chunk, now))
  {
    hide UnpackCanId, Fits, CompletedIn, Finish, DropOf, IsOutcome, FramesIn;
    var q := p.(frames := p.frames + [frame], payload := p.payload + chunk);
    assert multiset(p.frames + [frame]) == multiset(p.frames) + multiset{frame};
    if !Fits(limit, |p.payload| + |chunk|) {
      OverflowIsOutcome(limit, frame, now);
    } else if UnpackCanId(frame.canId).end {
      FinishIsOutcome(q, frame, now);
    } else {
      PendingIsOutcome(q, frame, now);
    }
  }

  lemma OverflowIsOutcome(limit: Option<nat>, frame: CanFrame, now: int)
    ensures var e := DropOf(Overflow, frame, now, limit);
      IsOutcome(e, frame) && e.Dropped? && FramesIn(None) + CompletedIn([e]) == multiset{}
  {
    hide UnpackCanId, CompletedIn;
    CompletedInOne(DropOf(Overflow, frame, now, limit));
  }

  lemma FinishIsOutcome(q: Partial, frame: CanFrame, now: int)
    requires q.frames != [] && q.frames[|q.frames| - 1] == frame
    ensures var e := Finish(q, frame, now);
      IsOutcome(e, frame) && !e.Pending?
      && FramesIn(None) + CompletedIn([e]) == if e.Dropped? then multiset{} else multiset(q.frames)
  {
    hide UnpackCanId, UnpackHeaderExtension, HasFragmentFlag, CompletedIn;
    CompletedInOne(Finish(q, frame, now));
  }

  lemma PendingIsOutcome(q: Partial, frame: CanFrame, now: int)
    ensures var c := UnpackCanId(frame.canId); var e := Pending(now, frame, c.sender, c.destination);
      IsOutcome(e, frame) && FramesIn(Some(q)) + CompletedIn([e]) == multiset(q.frames)
  {
    hide UnpackCanId, CompletedIn;
    var c := UnpackCanId(frame.canId);
    CompletedInOne(Pending(now, frame, c.sender, c.destination));
  }

  lemma DropHasOneOutcome(before: multiset<CanFrame>, reason: DropReason, frame: CanFrame, now: int)
    requires reason != Timeout && reason != Restarted
    ensures OneOutcome(before, frame, Step(None, [DropOf(reason, frame, now, None)]))
  {
    hide UnpackCanId;
    CompletedInOne(DropOf(reason, frame, now, None));
  }

  lemma BeginHasOneOutcome(limit: Option<nat>, frame: CanFrame, now: int)
    ensures OneOutcome(multiset{}, frame, Begin(limit, frame, now))
  {
    hide UnpackCanId, ExtensionOf, Extend, OneOutcome, DropOf;
    if |frame.data| < HEADER_EXTENSION_BYTES {
      DropHasOneOutcome(multiset{}, Malformed, frame, now);
    } else {
      ExtendHasOneOutcome(limit, Partial(UnpackCanId(frame.canId), ExtensionOf(frame), [], [], 1, now),
                          frame, frame.data[HEADER_EXTENSION_BYTES..], now);
    }
  }

  /** Whether a first frame gives up the packet in progress. */
  predicate GivesUp(entry: Option<Partial>, frame: CanFrame) {
    entry.Some? && UnpackCanId(frame.canId).begin
  }

  /** A step is one outcome, after a restart report if a packet is given up. */
  lemma StepHasOneOutcome(limit: Option<nat>, entry: Option<Partial>, frame: CanFrame, now: int)
    ensures var s := StepEntry(limit, entry, frame, now);
      if GivesUp(entry, frame) then
        && s.events == [DropOf(Restarted, frame, now, None)] + Begin(limit, frame, now).events
        && s.entry == Begin(limit, frame, now).entry
        && OneOutcome(multiset{}, frame, Begin(limit, frame, now))
      else OneOutcome(FramesIn(entry), frame, s)
  {
    hide UnpackCanId, Extend, Begin, OneOutcome, DropOf;
    BeginHasOneOutcome(limit, frame, now);
    DropHasOneOutcome(FramesIn(entry), OrphanFragment, frame, now);
    DropHasOneOutcome(FramesIn(entry), FrameLost, frame, now);
    if entry.Some? {
      ExtendHasOneOutcome(limit, entry.value.(nextFrameCount := entry.value.nextFrameCount + 1, lastUsed := now),
                          frame, frame.data, now);
    }
  }

  /** What feeding one frame does to the packet in progress for its key: each frame
      of it and the frame fed are kept, completed, or dropped with a report. */
  lemma StepAccounts(limit: Option<nat>, entry: Option<Partial>, frame: CanFrame, now: int)
    ensures var s := StepEntry(limit, entry, frame, now); var n := |s.events| - 1;
      && n >= 0 && IsOutcome(s.events[n], frame)
      && s.events == (if GivesUp(entry, frame) then [RestartReport(frame, now)] else []) + [s.events[n]]
      && FramesIn(s.entry) + CompletedIn(s.events)
         == (if s.events[n].Dropped? then multiset{}
             else (if GivesUp(entry, frame) then multiset{} else FramesIn(entry)) + multiset{frame})
      && (s.entry.Some? <==> s.events[n].Pending?)
  {
    hide StepEntry, Begin, DropOf, RestartReport, CompletedIn, IsOutcome, GivesUp, FramesIn;
    RestartIsReported(frame, now);
    StepHasOneOutcome(limit, entry, frame, now);
    if GivesUp(entry, frame) {
      var restarted := DropOf(Restarted, frame, now, None);
      CompletedInAppend([restarted], Begin(limit, frame, now).events);
      RestartCompletesNothing(frame, now);
    }
  }

  lemma RestartCompletesNothing(frame: CanFrame, now: int)
    ensures CompletedIn([DropOf(Restarted, frame, now, None)]) == multiset{}
  {
    CompletedInOne(DropOf(Restarted, frame, now, None));
  }

  /** The frames a feed discards: those of the packets it times out, those of a packet
      it restarts, and, if the frame itself is dropped, that frame with whatever was in
      progress for its key. */
  function Discarded(cfg: Config, t: Table, frame: CanFrame, now: int): multiset<CanFrame>
    requires Feed(cfg, t, frame, now).events != []
    requires forall k :: k in t.keys ==> k in t.items
  {
    var dropped := OutcomeOf(cfg, t, frame, now).Dropped?;
    HeldIn(TimedOut(cfg, t, frame, now), t.items)
    + (if frame.isExtendedId && (dropped || Restarts(t, frame)) then FramesIn(t.Get(FrameKey(frame))) else multiset{})
    + (if dropped then multiset{frame} else multiset{})
  }

  /** Feeding a frame reports, in this order: one timeout per packet it times out, one
      restart if it gives up a packet in progress, and one outcome for the frame itself.
      No frame is lost or invented, and no other packet is touched. */
  lemma FeedAccounts(cfg: Config, t: Table, frame: CanFrame, now: int)
    requires t.Valid()
    ensures var r := Feed(cfg, t, frame, now);
      && r.table.Valid() && r.events != [] && IsOutcome(OutcomeOf(cfg, t, frame, now), frame)
      && r.events == TimeoutsFor(cfg, t, frame, now) + RestartFor(t, frame, now) + [OutcomeOf(cfg, t, frame, now)]
      && Held(t) + multiset{frame} == Held(r.table) + CompletedIn(r.events) + Discarded(cfg, t, frame, now)
      && (OutcomeOf(cfg, t, frame, now).Pending? <==> frame.isExtendedId && FrameKey(frame) in r.table.items)
      && (forall k :: k in t.items && (frame.isExtendedId ==> k != FrameKey(frame)) ==>
            if k in TimedOut(cfg, t, frame, now) then k !in r.table.items
            else k in r.table.items && r.table.items[k] == t.items[k])
    ensures var keys := TimedOut(cfg, t, frame, now); var events := Feed(cfg, t, frame, now).events;
      |keys| < |events| && forall i :: 0 <= i < |keys| ==> var p := t.items[keys[i]];
        && now - p.lastUsed > cfg.timeout
        && events[i] == Dropped(p.lastUsed + cfg.timeout, None, Timeout, Some(p.canFields.sender), Some(p.canFields.destination), None)
        && (TableOk(cfg, t) ==> p.canFields.sender == keys[i].sender && p.canFields.destination == keys[i].destination)
  {
    hide Feed, Discarded, OutcomeOf, RestartFor, TimeoutsFor, Held, Restarts, Opens, TimedOut, CompletedIn, TableOk;
    TimeoutsAreReported(cfg, t, frame, now);
    if frame.isExtendedId {
      FeedShape(cfg, t, frame, now);
      FeedFrames(cfg, t, frame, now);
      FeedBalance(cfg, t, frame, now);
      FeedLeavesOthers(cfg, t, frame, now);
    } else {
      NotCspAccounts(cfg, t, frame, now);
    }
  }

  lemma TimeoutsAreReported(cfg: Config, t: Table, frame: CanFrame, now: int)
    ensures var keys := TimedOut(cfg, t, frame, now); var events := TimeoutsFor(cfg, t, frame, now);
      |keys| == |events| && forall i :: 0 <= i < |keys| ==> var p := t.items[keys[i]];
        && now - p.lastUsed > cfg.timeout
        && events[i] == Dropped(p.lastUsed + cfg.timeout, None, Timeout, Some(p.canFields.sender), Some(p.canFields.destination), None)
        && (TableOk(cfg, t) ==> p.canFields.sender == keys[i].sender && p.canFields.destination == keys[i].destination)
  {
    hide TableOk, Opens;
    if TableOk(cfg, t) {
      KeysNameTheirPackets(cfg, t);
    }
  }

  lemma KeysNameTheirPackets(cfg: Config, t: Table)
    requires TableOk(cfg, t)
    ensures forall k :: k in t.items ==> KeyOf(t.items[k].canFields) == k
  {
    hide UnpackCanId, FrameCounter, PayloadOf, ExtensionOf;
    forall k | k in t.items ensures KeyOf(t.items[k].canFields) == k {
      assert PartialOk(cfg.limit, k, t.items[k]);
    }
  }

  lemma NotCspAccounts(cfg: Config, t: Table, frame: CanFrame, now: int)
    requires t.Valid() && !frame.isExtendedId
    ensures var r := Feed(cfg, t, frame, now);
      && r.table == t && CompletedIn(r.events) == multiset{}
      && r.events == [OutcomeOf(cfg, t, frame, now)] && IsOutcome(r.events[0], frame) && r.events[0].Dropped?
      && TimeoutsFor(cfg, t, frame, now) == [] && RestartFor(t, frame, now) == [] && TimedOut(cfg, t, frame, now) == []
      && Discarded(cfg, t, frame, now) == multiset{frame}
  {
    NothingCompletedIn(Feed(cfg, t, frame, now).events);
  }

  /** The events of a frame, in order. */
  lemma FeedShape(cfg: Config, t: Table, frame: CanFrame, now: int)
    requires t.Valid() && frame.isExtendedId
    ensures var r := Feed(cfg, t, frame, now);
      var s := StepEntry(cfg.limit, t.Get(FrameKey(frame)), frame, now);
      && r.events != [] && IsOutcome(OutcomeOf(cfg, t, frame, now), frame)
      && s.events != [] && OutcomeOf(cfg, t, frame, now) == s.events[|s.events| - 1]
      && r.events == TimeoutsFor(cfg, t, frame, now) + s.events
      && s.events == RestartFor(t, frame, now) + [OutcomeOf(cfg, t, frame, now)]
      && r.events == TimeoutsFor(cfg, t, frame, now) + RestartFor(t, frame, now) + [OutcomeOf(cfg, t, frame, now)]
      && CompletedIn(r.events) == CompletedIn(s.events)
  {
    hide StepEntry, UnpackCanId, Stale, IsOutcome, CompletedIn, RestartReport, TimeoutsFor;
    var s := StepEntry(cfg.limit, t.Get(FrameKey(frame)), frame, now);
    var timeouts := TimeoutsFor(cfg, t, frame, now);
    StepAccounts(cfg.limit, t.Get(FrameKey(frame)), frame, now);
    FeedEvents(cfg, t, frame, now);
    CompletedInAppend(timeouts, s.events);
  }

  lemma FeedEvents(cfg: Config, t: Table, frame: CanFrame, now: int)
    requires t.Valid() && frame.isExtendedId
    ensures CompletedIn(TimeoutsFor(cfg, t, frame, now)) == multiset{}
    ensures Feed(cfg, t, frame, now).events
      == TimeoutsFor(cfg, t, frame, now) + StepEntry(cfg.limit, t.Get(FrameKey(frame)), frame, now).events
  {
    hide StepEntry, UnpackCanId, StaleOrder, IdleKeys, TimeoutsOf, Expire;
    StaleAreIdle(cfg.timeout, t, now);
    NothingCompletedIn(TimeoutsFor(cfg, t, frame, now));
    assert BeforeStep(cfg, t, frame, now).events == TimeoutsFor(cfg, t, frame, now);
  }

  /** No frame is lost or invented. */
  lemma FeedBalance(cfg: Config, t: Table, frame: CanFrame, now: int)
    requires t.Valid() && frame.isExtendedId && Feed(cfg, t, frame, now).events != []
    ensures var r := Feed(cfg, t, frame, now);
      && r.table.Valid()
      && Held(t) + multiset{frame} == Held(r.table) + CompletedIn(r.events) + Discarded(cfg, t, frame, now)
  {
    hide Feed, StepEntry, UnpackCanId, Stale, IsOutcome, CompletedIn, TimeoutsFor, Held, HeldIn, TimedOut, FramesIn, OutcomeOf;
    var entry := t.Get(FrameKey(frame));
    var r := Feed(cfg, t, frame, now);
    var s := StepEntry(cfg.limit, entry, frame, now);
    FeedShape(cfg, t, frame, now);
    FeedFrames(cfg, t, frame, now);
    StepAccounts(cfg.limit, entry, frame, now);
    assert |s.events| - 1 == |RestartFor(t, frame, now)|;
    var dropped := OutcomeOf(cfg, t, frame, now).Dropped?;
    var lost := if dropped || Restarts(t, frame) then FramesIn(entry) else multiset{};
    Balance(Held(t), Held(r.table), FramesIn(entry), FramesIn(s.entry), HeldIn(TimedOut(cfg, t, frame, now), t.items),
            CompletedIn(r.events), lost, if dropped then multiset{frame} else multiset{}, multiset{frame});
  }

  lemma Balance<T(!new)>(before: multiset<T>, after: multiset<T>, entry: multiset<T>, next: multiset<T>, timedOut: multiset<T>,
                         completed: multiset<T>, lost: multiset<T>, dropped: multiset<T>, fed: multiset<T>)
    requires after + entry + timedOut == before + next
    requires next + completed + lost + dropped == entry + fed
    ensures before + fed == after + completed + (timedOut + lost + dropped)
  {
    forall x ensures (before + fed)[x] == (after + completed + (timedOut + lost + dropped))[x] {
      assert (after + entry + timedOut)[x] == (before + next)[x];
      assert (next + completed + lost + dropped)[x] == (entry + fed)[x];
    }
  }

  lemma InTurn<T(!new)>(h0: multiset<T>, h1: multiset<T>, h2: multiset<T>, f1: multiset<T>, f2: multiset<T>,
                        c1: multiset<T>, c2: multiset<T>, d1: multiset<T>, d2: multiset<T>)
    requires h0 + f1 == h1 + c1 + d1 && h1 + f2 == h2 + c2 + d2
    ensures h0 + (f1 + f2) == h2 + (c1 + c2) + (d1 + d2)
  {
    forall x ensures (h0 + (f1 + f2))[x] == (h2 + (c1 + c2) + (d1 + d2))[x] {
      assert (h0 + f1)[x] == (h1 + c1 + d1)[x];
      assert (h1 + f2)[x] == (h2 + c2 + d2)[x];
    }
  }

  /** Only the key of the frame, and the keys it times out, change. */
  lemma FeedLeavesOthers(cfg: Config, t: Table, frame: CanFrame, now: int)
    requires t.Valid() && frame.isExtendedId && Feed(cfg, t, frame, now).events != []
    ensures var r := Feed(cfg, t, frame, now);
      && (OutcomeOf(cfg, t, frame, now).Pending? <==> FrameKey(frame) in r.table.items)
      && (forall k :: k in t.items && k != FrameKey(frame) ==>
            if k in TimedOut(cfg, t, frame, now) then k !in r.table.items
            else k in r.table.items && r.table.items[k] == t.items[k])
  {
    hide StepEntry, FrameKey, UnpackCanId, IsOutcome, CompletedIn, TimeoutsFor, Held, HeldIn, FramesIn, OutcomeOf, RestartFor;
    FeedShape(cfg, t, frame, now);
    StepAccounts(cfg.limit, t.Get(FrameKey(frame)), frame, now);
  }

  lemma FeedFrames(cfg: Config, t: Table, frame: CanFrame, now: int)
    requires t.Valid() && frame.isExtendedId
    ensures var s := StepEntry(cfg.limit, t.Get(FrameKey(frame)), frame, now);
      var r := Feed(cfg, t, frame, now);
      && r.table.Valid()
      && Held(r.table) + FramesIn(t.Get(FrameKey(frame))) + HeldIn(TimedOut(cfg, t, frame, now), t.items)
         == Held(t) + FramesIn(s.entry)
  {
    hide StepEntry, UnpackCanId, Stale, IdleKeys;
    StaleAreIdle(cfg.timeout, t, now);
    var before := BeforeStep(cfg, t, frame, now);
    var s := StepEntry(cfg.limit, t.Get(FrameKey(frame)), frame, now);
    HeldAfterRemoveAll(t, StaleKeys(cfg.timeout, t, now));
    HeldAfterSet(before.table, FrameKey(frame), s.entry);
  }

  /** Expiry removes exactly the packets idle for longer than the timeout, completes none,
      and reports each of them, in table order, as timed out when its time was up. */
  lemma ExpireAccounts(cfg: Config, t: Table, now: int)
    requires t.Valid()
    ensures var r := Expire(cfg.timeout, t, now); var keys := IdleKeys(cfg.timeout, t, now);
      && r.table.Valid() && CompletedIn(r.events) == multiset{}
      && Held(t) == Held(r.table) + HeldIn(keys, t.items)
      && r.table.keys == Without(t.keys, set k | k in keys)
      && (forall k :: k in r.table.items <==> k in t.items && now - t.items[k].lastUsed <= cfg.timeout)
      && (forall k :: k in r.table.items ==> r.table.items[k] == t.items[k])
    ensures var keys := IdleKeys(cfg.timeout, t, now); var events := Expire(cfg.timeout, t, now).events;
      |events| == |keys| && forall i :: 0 <= i < |keys| ==> var p := t.items[keys[i]];
        && events[i] == Dropped(p.lastUsed + cfg.timeout, None, Timeout, Some(p.canFields.sender), Some(p.canFields.destination), None)
        && (TableOk(cfg, t) ==> p.canFields.sender == keys[i].sender && p.canFields.destination == keys[i].destination)
  {
    hide TableOk, HeldIn, CompletedIn, Held, TimeoutsOf, StaleKeys, IdleKeys, TimeoutEvents, NoDuplicates;
    StaleAreIdle(cfg.timeout, t, now);
    StaleAreOld(cfg.timeout, t, now);
    HeldAfterRemoveAll(t, StaleKeys(cfg.timeout, t, now));
    NothingCompletedIn(Expire(cfg.timeout, t, now).events);
    if TableOk(cfg, t) {
      KeysNameTheirPackets(cfg, t);
    }
  }

  lemma StaleAreOld(timeout: nat, t: Table, now: int)
    requires t.Valid()
    ensures StaleKeys(timeout, t, now) == set k | k in IdleKeys(timeout, t, now)
    ensures forall k :: k in StaleKeys(timeout, t, now) <==> k in t.items && now - t.items[k].lastUsed > timeout
  {
    hide IdleKeys;
  }

  // ---- Runs ----

  function FedIn(ops: seq<Op>): multiset<CanFrame> {
    if ops == [] then multiset{}
    else FedIn(ops[..|ops| - 1]) + if ops[|ops| - 1].FeedOp? then multiset{ops[|ops| - 1].frame} else multiset{}
  }

  function DiscardedBy(cfg: Config, t: Table, op: Op): multiset<CanFrame>
    requires t.Valid()
  {
    match op
    case FeedOp(frame, now) =>
      FeedAccounts(cfg, t, frame, now);
      Discarded(cfg, t, frame, now)
    case ExpireOp(now) => HeldIn(IdleKeys(cfg.timeout, t, now), t.items)
  }

  lemma {:induction false} RunIsValid(cfg: Config, t: Table, ops: seq<Op>)
    requires t.Valid()
    ensures Run(cfg, t, ops).table.Valid()
  {
    hide Feed, Expire;
    if ops != [] {
      RunIsValid(cfg, t, ops[..|ops| - 1]);
      var before := Run(cfg, t, ops[..|ops| - 1]).table;
      match ops[|ops| - 1]
      case FeedOp(frame, now) => FeedAccounts(cfg, before, frame, now);
      case ExpireOp(now) => ExpireAccounts(cfg, before, now);
    }
  }

  /** All frames a run discards, each reported when it is discarded. */
  function DiscardedIn(cfg: Config, t: Table, ops: seq<Op>): multiset<CanFrame>
    requires t.Valid()
  {
    if ops == [] then multiset{}
    else
      RunIsValid(cfg, t, ops[..|ops| - 1]);
      DiscardedIn(cfg, t, ops[..|ops| - 1])
      + DiscardedBy(cfg, Run(cfg, t, ops[..|ops| - 1]).table, ops[|ops| - 1])
  }

  lemma FedAlone(op: Op)
    ensures FedIn([op]) == if op.FeedOp? then multiset{op.frame} else multiset{}
  {
    assert [op][..0] == [];
  }

  lemma ApplyAccounts(cfg: Config, t: Table, op: Op)
    requires t.Valid()
    ensures var r := Apply(cfg, t, op);
      r.table.Valid()
      && Held(t) + FedIn([op]) == Held(r.table) + CompletedIn(r.events) + DiscardedBy(cfg, t, op)
  {
    hide Feed, Expire, Held, HeldIn, CompletedIn, Discarded, IdleKeys, TimeoutsFor, TableOk, OutcomeOf, StepEntry,
      UnpackCanId, FrameKey, RestartFor, TimedOut;
    FedAlone(op);
    match op
    case FeedOp(frame, now) => FeedAccounts(cfg, t, frame, now);
    case ExpireOp(now) => ExpireAccounts(cfg, t, now);
  }

  /** Over every run, each frame held at the start or fed is in exactly one place at the
      end: a packet in progress, a completed packet, or the discarded frames. */
  lemma {:induction false} FramesAreConserved(cfg: Config, t: Table, ops: seq<Op>)
    requires t.Valid()
    ensures var r := Run(cfg, t, ops);
      r.table.Valid()
      && Held(t) + FedIn(ops) == Held(r.table) + CompletedIn(r.events) + DiscardedIn(cfg, t, ops)
  {
    hide Apply, DiscardedBy, Held, HeldIn;
    if ops != [] {
      var n := |ops| - 1;
      FramesAreConserved(cfg, t, ops[..n]);
      var before := Run(cfg, t, ops[..n]);
      var last := Apply(cfg, before.table, ops[n]);
      ApplyAccounts(cfg, before.table, ops[n]);
      CompletedInAppend(before.events, last.events);
      FedOne(ops);
      InTurn(Held(t), Held(before.table), Held(last.table), FedIn(ops[..n]), FedIn([ops[n]]),
             CompletedIn(before.events), CompletedIn(last.events),
             DiscardedIn(cfg, t, ops[..n]), DiscardedBy(cfg, before.table, ops[n]));
    }
  }

  lemma FedOne(ops: seq<Op>)
    requires ops != []
    ensures FedIn(ops) == FedIn(ops[..|ops| - 1]) + FedIn([ops[|ops| - 1]])
  {
    assert [ops[|ops| - 1]][..0] == [];
  }
}
