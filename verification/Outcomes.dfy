/** What each frame leads to, explained by the frames themselves: the incremental fields of
    a packet in progress are not needed to say it. */
module Outcomes {
  import opened Common
  import opened CspV2
  import opened Reassembly
  import opened Conservation

  /** The frames held for a key. */
  function HeldFrames(entry: Option<Partial>): seq<CanFrame> {
    if entry.None? then [] else entry.value.frames
  }

  /** The frames of the packet once `frame` has arrived. */
  function Together(held: seq<CanFrame>, frame: CanFrame): seq<CanFrame> {
    if UnpackCanId(frame.canId).begin then [frame] else held + [frame]
  }

  function DroppedFrame(reason: DropReason, frame: CanFrame, now: int, limit: Option<nat>): Event {
    var c := UnpackCanId(frame.canId);
    Dropped(now, Some(frame), reason, Some(c.sender), Some(c.destination), limit)
  }

  /** The outcome of `frame`, from the frames held for its key: a continuation with nothing
      held is an orphan; one that does not carry the number of frames held, modulo 8, shows
      a loss; a packet without room for its header extension, or with the fragment flag, is
      malformed; one over the limit overflows; any other waits for its end. */
  function Explained(limit: Option<nat>, held: seq<CanFrame>, frame: CanFrame, now: int): Event {
    var c := UnpackCanId(frame.canId);
    var frames := Together(held, frame);
    if !c.begin && held == [] then DroppedFrame(OrphanFragment, frame, now, None)
    else if !c.begin && c.frameCount as int != |held| % 8 then DroppedFrame(FrameLost, frame, now, None)
    else if |frames[0].data| < 4 then DroppedFrame(Malformed, frame, now, None)
    else if limit.Some? && |PayloadOf(frames)| > limit.value then DroppedFrame(Overflow, frame, now, limit)
    else if !c.end then Pending(now, frame, c.sender, c.destination)
    else
      var first := UnpackCanId(frames[0].canId);
      var fields := UnpackHeaderExtension(ExtensionOf(frames[0]), first.priority, first.destination);
      if fields.flags & 0x10 != 0 then DroppedFrame(Malformed, frame, now, None)
      else Complete(now, frame, DecodedPacket(fields, PayloadOf(frames), frames[0], first, frames), c.sender, c.destination)
  }

  lemma ExtendIsExplained(limit: Option<nat>, p: Partial, frame: CanFrame, chunk: bytes, now: int, held: seq<CanFrame>)
    requires var frames := Together(held, frame); var c := UnpackCanId(frame.canId);
      && p.frames + [frame] == frames && p.payload + chunk == PayloadOf(frames)
      && p.canFields == UnpackCanId(frames[0].canId)
      && |frames[0].data| >= 4 && p.headerExtension == ExtensionOf(frames[0])
      && (!c.begin ==> held != [] && c.frameCount as int == |held| % 8)
    ensures var s := Extend(limit, p, frame, chunk, now); var e := Explained(limit, held, frame, now);
      && s.events == [e]
      && HeldFrames(s.entry) == if e.Pending? then Together(held, frame) else []
  {
    hide UnpackCanId, UnpackHeaderExtension, ExtensionOf, PayloadOf;
  }

  lemma BeginIsExplained(limit: Option<nat>, held: seq<CanFrame>, frame: CanFrame, now: int)
    requires UnpackCanId(frame.canId).begin
    ensures var s := Begin(limit, frame, now); var e := Explained(limit, held, frame, now);
      && s.events == [e]
      && HeldFrames(s.entry) == if e.Pending? then [frame] else []
  {
    hide UnpackCanId, ExtensionOf, Extend;
    if |frame.data| >= HEADER_EXTENSION_BYTES {
      PayloadExtends([], frame);
      assert [] + [frame] == [frame];
      var chunk := frame.data[HEADER_EXTENSION_BYTES..];
      assert [] + chunk == chunk && PayloadOf([]) + chunk == chunk;
      ExtendIsExplained(limit, Partial(UnpackCanId(frame.canId), ExtensionOf(frame), [], [], 1, now), frame, chunk, now, held);
    }
  }

  /** The machine of a key gives exactly the outcome that the frames held explain, and then
      holds exactly the frames it should. */
  lemma StepIsExplained(limit: Option<nat>, entry: Option<Partial>, frame: CanFrame, now: int)
    requires frame.isExtendedId && (entry.Some? ==> PartialOk(limit, FrameKey(frame), entry.value))
    ensures var held := HeldFrames(entry); var s := StepEntry(limit, entry, frame, now);
      var e := Explained(limit, held, frame, now);
      && s.events == (if GivesUp(entry, frame) then [RestartReport(frame, now)] else []) + [e]
      && HeldFrames(s.entry) == if e.Pending? then Together(held, frame) else []
  {
    hide UnpackCanId, ExtensionOf, Extend, Begin, FrameKey, FrameCounter, PayloadOf, RestartReport;
    RestartIsReported(frame, now);
    if UnpackCanId(frame.canId).begin {
      BeginIsExplained(limit, HeldFrames(entry), frame, now);
    } else if entry.Some? {
      var p := entry.value;
      FrameCounterIsNumber(|p.frames|);
      PayloadExtends(p.frames, frame);
      if UnpackCanId(frame.canId).frameCount == p.nextFrameCount {
        ExtendIsExplained(limit, p.(nextFrameCount := p.nextFrameCount + 1, lastUsed := now), frame, frame.data, now, p.frames);
      }
    }
  }

  /** A feed reports exactly the timeouts, the restart and the outcome that the frames held
      explain. Packets keep their place in the table, and a new one goes to its end. */
  lemma FeedIsExplained(cfg: Config, t: Table, frame: CanFrame, now: int)
    requires TableOk(cfg, t)
    ensures var key := FrameKey(frame); var r := Feed(cfg, t, frame, now);
      if !frame.isExtendedId then r == Outcome(t, [Dropped(now, Some(frame), Malformed, None, None, None)])
      else
        var held := HeldFrames(t.Get(key));
        var e := Explained(cfg.limit, held, frame, now);
        && r.events == TimeoutsFor(cfg, t, frame, now) + RestartFor(t, frame, now) + [e]
        && HeldFrames(r.table.Get(key)) == (if e.Pending? then Together(held, frame) else [])
        && r.table.keys == Without(t.keys, t.items.Keys - r.table.items.Keys)
                           + (if key in r.table.items && key !in t.items then [key] else [])
  {
    hide UnpackCanId, StepEntry, Explained, PartialOk, TimeoutsFor, Together, RestartReport, Stale;
    if frame.isExtendedId {
      StepIsExplained(cfg.limit, t.Get(FrameKey(frame)), frame, now);
      FeedEvents(cfg, t, frame, now);
      OrderAfterFeed(cfg, t, frame, now);
      var timeouts := TimeoutsFor(cfg, t, frame, now);
      var e := Explained(cfg.limit, HeldFrames(t.Get(FrameKey(frame))), frame, now);
      assert timeouts + (RestartFor(t, frame, now) + [e]) == timeouts + RestartFor(t, frame, now) + [e];
    }
  }

  lemma SetKeepsOrder(t: Table, key: Key, entry: Option<Partial>)
    requires t.Valid()
    ensures var u := t.Set(key, entry);
      u.keys == Without(t.keys, t.items.Keys - u.items.Keys) + if key in u.items && key !in t.items then [key] else []
  {
    var u := t.Set(key, entry);
    if entry.None? {
      if key !in t.items {
        WithoutNothing(t.keys, {key});
        WithoutNothing(t.keys, t.items.Keys - u.items.Keys);
      } else {
        assert t.items.Keys - u.items.Keys == {key};
      }
      assert Without(t.keys, t.items.Keys - u.items.Keys) + [] == Without(t.keys, t.items.Keys - u.items.Keys);
    } else {
      WithoutNothing(t.keys, t.items.Keys - u.items.Keys);
    }
  }

  lemma OrderAfterFeed(cfg: Config, t: Table, frame: CanFrame, now: int)
    requires t.Valid() && frame.isExtendedId
    ensures var r := Feed(cfg, t, frame, now).table; var key := FrameKey(frame);
      r.keys == Without(t.keys, t.items.Keys - r.items.Keys) + if key in r.items && key !in t.items then [key] else []
  {
    hide UnpackCanId, StepEntry, Stale, StaleKeys;
    var key := FrameKey(frame);
    var before := BeforeStep(cfg, t, frame, now).table;
    var r := Feed(cfg, t, frame, now).table;
    var entry := StepEntry(cfg.limit, t.Get(key), frame, now).entry;
    SetKeepsOrder(before, key, entry);
    if before != t {
      var gone := StaleKeys(cfg.timeout, t, now);
      WithoutTwice(t.keys, gone, before.items.Keys - r.items.Keys);
      assert before.items.Keys - r.items.Keys == {};
      WithoutNothing(before.keys, {});
      SameWithout(t.keys, gone, t.items.Keys - r.items.Keys);
    }
  }

  lemma {:induction false} SameWithout<K(!new)>(s: seq<K>, a: set<K>, b: set<K>)
    requires forall k :: k in s ==> (k in a <==> k in b)
    ensures Without(s, a) == Without(s, b)
  {
    if s != [] {
      assert forall k :: k in s[1..] ==> k in s;
      assert s[0] in s;
      SameWithout(s[1..], a, b);
    }
  }
}
