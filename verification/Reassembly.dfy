/** What reassembly does, as a function: every connection key has its own small
    machine, and a table holds one machine state per key in progress. The class in
    Reassembler.dfy is proved to compute exactly this. */
module Reassembly {
  import opened Common
  import opened CspV2

  datatype Key = Key(priority: bv2, destination: bv14, sender: bv6, packetCount: bv2)

  function KeyOf(c: CanIdFields): Key {
    Key(c.priority, c.destination, c.sender, c.packetCount)
  }

  function FrameKey(f: CanFrame): Key {
    KeyOf(UnpackCanId(f.canId))
  }

  datatype DropReason = OrphanFragment | FrameLost | Overflow | Timeout | Restarted | Malformed

  datatype Event =
    | Complete(time: int, last: CanFrame, packet: DecodedPacket, sender: bv6, destination: bv14)
    | Pending(time: int, stored: CanFrame, sender: bv6, destination: bv14)
    | Dropped(time: int, frame: Option<CanFrame>, reason: DropReason,
              source: Option<bv6>, target: Option<bv14>, limit: Option<nat>)

  /** A packet partway through reassembly. */
  datatype Partial = Partial(
    canFields: CanIdFields, headerExtension: bv32, frames: seq<CanFrame>,
    payload: bytes, nextFrameCount: bv3, lastUsed: int)

  type Table = Dict<Key, Partial>

  datatype Config = Config(limit: Option<nat>, timeout: nat)

  predicate Fits(limit: Option<nat>, n: nat) {
    limit.None? || n <= limit.value
  }

  // ---- One key ----

  datatype Step = Step(entry: Option<Partial>, events: seq<Event>)

  function DropOf(reason: DropReason, frame: CanFrame, now: int, limit: Option<nat>): Event {
    var c := UnpackCanId(frame.canId);
    Dropped(now, Some(frame), reason, Some(c.sender), Some(c.destination), limit)
  }

  /** The outcome of the last frame of a packet. */
  function Finish(p: Partial, frame: CanFrame, now: int): Event
    requires p.frames != []
  {
    var c := UnpackCanId(frame.canId);
    var fields := UnpackHeaderExtension(p.headerExtension, p.canFields.priority, p.canFields.destination);
    if HasFragmentFlag(fields) then DropOf(Malformed, frame, now, None)
    else Complete(now, frame, DecodedPacket(fields, p.payload, p.frames[0], p.canFields, p.frames),
                  c.sender, c.destination)
  }

  /** Add `chunk`, carried by `frame`, to the packet in progress. */
  function Extend(limit: Option<nat>, p: Partial, frame: CanFrame, chunk: bytes, now: int): Step {
    var c := UnpackCanId(frame.canId);
    if !Fits(limit, |p.payload| + |chunk|) then Step(None, [DropOf(Overflow, frame, now, limit)])
    else
      var q := p.(frames := p.frames + [frame], payload := p.payload + chunk);
      if c.end then Step(None, [Finish(q, frame, now)])
      else Step(Some(q), [Pending(now, frame, c.sender, c.destination)])
  }

  function Begin(limit: Option<nat>, frame: CanFrame, now: int): Step {
    if |frame.data| < HEADER_EXTENSION_BYTES then Step(None, [DropOf(Malformed, frame, now, None)])
    else Extend(limit, Partial(UnpackCanId(frame.canId), ExtensionOf(frame), [], [], 1, now),
                frame, frame.data[HEADER_EXTENSION_BYTES..], now)
  }

  /** One frame of this key, with `entry` the packet in progress, if any. */
  function StepEntry(limit: Option<nat>, entry: Option<Partial>, frame: CanFrame, now: int): Step {
    var c := UnpackCanId(frame.canId);
    if c.begin then
      var s := Begin(limit, frame, now);
      if entry.None? then s else Step(s.entry, [DropOf(Restarted, frame, now, None)] + s.events)
    else if entry.None? then Step(None, [DropOf(OrphanFragment, frame, now, None)])
    else if c.frameCount != entry.value.nextFrameCount then Step(None, [DropOf(FrameLost, frame, now, None)])
    else
      Extend(limit, entry.value.(nextFrameCount := entry.value.nextFrameCount + 1, lastUsed := now),
             frame, frame.data, now)
  }

  // ---- The table ----

  predicate Stale(timeout: nat, p: Partial, now: int) {
    now - p.lastUsed > timeout
  }

  function StaleKeys(timeout: nat, t: Table, now: int): set<Key> {
    set k | k in t.items && Stale(timeout, t.items[k], now)
  }

  function TimeoutOf(timeout: nat, p: Partial): Event {
    Dropped(p.lastUsed + timeout, None, Timeout, Some(p.canFields.sender), Some(p.canFields.destination), None)
  }

  /** The stale keys, oldest entry first. */
  function StaleOrder(timeout: nat, t: Table, now: int): seq<Key> {
    Within(t.keys, StaleKeys(timeout, t, now))
  }

  /** One timeout for each of `keys`, in order. */
  function TimeoutEvents(timeout: nat, keys: seq<Key>, items: map<Key, Partial>): (events: seq<Event>)
    requires forall k :: k in keys ==> k in items
    ensures |events| == |keys|
    ensures forall i :: 0 <= i < |keys| ==> events[i] == TimeoutOf(timeout, items[keys[i]])
  {
    seq(|keys|, i requires 0 <= i < |keys| => TimeoutOf(timeout, items[keys[i]]))
  }

  datatype Outcome = Outcome(table: Table, events: seq<Event>)

  function Expire(timeout: nat, t: Table, now: int): Outcome {
    Outcome(t.RemoveAll(StaleKeys(timeout, t, now)),
            TimeoutEvents(timeout, StaleOrder(timeout, t, now), t.items))
  }

  /** Opening a key that is not in the table first discards the stale packets. */
  function BeforeStep(cfg: Config, t: Table, frame: CanFrame, now: int): Outcome {
    if FrameKey(frame) !in t.items && UnpackCanId(frame.canId).begin then Expire(cfg.timeout, t, now)
    else Outcome(t, [])
  }

  function Feed(cfg: Config, t: Table, frame: CanFrame, now: int): Outcome {
    if !frame.isExtendedId then Outcome(t, [Dropped(now, Some(frame), Malformed, None, None, None)])
    else
      var before := BeforeStep(cfg, t, frame, now);
      var s := StepEntry(cfg.limit, t.Get(FrameKey(frame)), frame, now);
      Outcome(before.table.Set(FrameKey(frame), s.entry), before.events + s.events)
  }

  // ---- Runs ----

  datatype Op = FeedOp(frame: CanFrame, now: int) | ExpireOp(now: int)

  function Apply(cfg: Config, t: Table, op: Op): Outcome {
    match op
    case FeedOp(frame, now) => Feed(cfg, t, frame, now)
    case ExpireOp(now) => Expire(cfg.timeout, t, now)
  }

  /** All events of a run, and the table it leaves. */
  function Run(cfg: Config, t: Table, ops: seq<Op>): Outcome {
    if ops == [] then Outcome(t, [])
    else
      var r := Run(cfg, t, ops[..|ops| - 1]);
      var last := Apply(cfg, r.table, ops[|ops| - 1]);
      Outcome(last.table, r.events + last.events)
  }

  datatype Arrival = Arrival(frame: CanFrame, now: int)

  /** A run of the machine of one key. */
  function RunEntry(limit: Option<nat>, entry: Option<Partial>, arrivals: seq<Arrival>): Step {
    if arrivals == [] then Step(entry, [])
    else
      var r := RunEntry(limit, entry, arrivals[..|arrivals| - 1]);
      var a := arrivals[|arrivals| - 1];
      var s := StepEntry(limit, r.entry, a.frame, a.now);
      Step(s.entry, r.events + s.events)
  }

  lemma RunEntryNone(limit: Option<nat>, entry: Option<Partial>)
    ensures RunEntry(limit, entry, []) == Step(entry, [])
  {
  }

  lemma RunEntrySnoc(limit: Option<nat>, entry: Option<Partial>, arrivals: seq<Arrival>, a: Arrival)
    ensures var r := RunEntry(limit, entry, arrivals); var s := StepEntry(limit, r.entry, a.frame, a.now);
      RunEntry(limit, entry, arrivals + [a]) == Step(s.entry, r.events + s.events)
  {
    hide StepEntry;
    assert (arrivals + [a])[..|arrivals|] == arrivals;
  }

  // ---- What every held packet satisfies ----

  /** The payload bytes a frame carries, by its place in the packet. */
  function FrameChunk(frames: seq<CanFrame>, i: nat): bytes
    requires i < |frames|
  {
    if i > 0 then frames[i].data
    else if |frames[0].data| >= HEADER_EXTENSION_BYTES then frames[0].data[HEADER_EXTENSION_BYTES..]
    else []
  }

  /** The payload carried by `frames`, first frame first. */
  function PayloadOf(frames: seq<CanFrame>): bytes {
    if frames == [] then []
    else PayloadOf(frames[..|frames| - 1]) + FrameChunk(frames, |frames| - 1)
  }

  /** `frames` are consecutive frames of one packet of `key`: a first frame, then
      continuations counting 1, 2, ... modulo 8. Only the last may carry `end`. */
  ghost predicate Chain(key: Key, frames: seq<CanFrame>) {
    && frames != []
    && (forall i :: 0 <= i < |frames| ==> frames[i].isExtendedId && FrameKey(frames[i]) == key)
    && UnpackCanId(frames[0].canId).begin && |frames[0].data| >= HEADER_EXTENSION_BYTES
    && (forall i :: 0 < i < |frames| ==>
          !UnpackCanId(frames[i].canId).begin && UnpackCanId(frames[i].canId).frameCount == FrameCounter(i))
    && (forall i :: 0 <= i < |frames| - 1 ==> !UnpackCanId(frames[i].canId).end)
  }

  ghost predicate PartialOk(limit: Option<nat>, key: Key, p: Partial) {
    && CollectedOk(key, p) && Fits(limit, |p.payload|)
    && !UnpackCanId(p.frames[|p.frames| - 1].canId).end
    && p.nextFrameCount == FrameCounter(|p.frames|)
  }

  ghost predicate CollectedOk(key: Key, p: Partial) {
    && Chain(key, p.frames)
    && p.payload == PayloadOf(p.frames)
    && p.canFields == UnpackCanId(p.frames[0].canId)
    && p.headerExtension == ExtensionOf(p.frames[0])
  }

  ghost predicate TableOk(cfg: Config, t: Table) {
    t.Valid() && forall k :: k in t.items ==> PartialOk(cfg.limit, k, t.items[k])
  }

  /** A completed packet is a whole chain, ending at the frame that completed it. */
  ghost predicate PacketOk(limit: Option<nat>, e: Event)
    requires e.Complete?
  {
    var p := e.packet;
    && Chain(FrameKey(e.last), p.frames) && p.frames[|p.frames| - 1] == e.last
    && UnpackCanId(e.last.canId).end
    && p.payload == PayloadOf(p.frames) && Fits(limit, |p.payload|)
    && p.frame == p.frames[0] && p.canFields == UnpackCanId(p.frame.canId)
    && DecodeFirstFrameHeader(p.frame) == Ok(p.fields) && !HasFragmentFlag(p.fields)
  }

  ghost predicate PacketsOk(limit: Option<nat>, events: seq<Event>) {
    forall i :: 0 <= i < |events| && events[i].Complete? ==> PacketOk(limit, events[i])
  }

  lemma PayloadExtends(frames: seq<CanFrame>, frame: CanFrame)
    ensures PayloadOf(frames + [frame]) == PayloadOf(frames) + FrameChunk(frames + [frame], |frames|)
  {
    assert (frames + [frame])[..|frames|] == frames;
  }

  ghost predicate StepOk(limit: Option<nat>, key: Key, now: int, s: Step) {
    && (s.entry.Some? ==> PartialOk(limit, key, s.entry.value) && s.entry.value.lastUsed == now)
    && PacketsOk(limit, s.events)
  }

  lemma FinishOk(limit: Option<nat>, p: Partial, frame: CanFrame, now: int)
    requires CollectedOk(FrameKey(frame), p) && Fits(limit, |p.payload|)
    requires p.frames[|p.frames| - 1] == frame && UnpackCanId(frame.canId).end
    ensures PacketsOk(limit, [Finish(p, frame, now)])
  {
    hide UnpackCanId, ExtensionOf, UnpackHeaderExtension, HasFragmentFlag, FrameCounter, PayloadOf;
  }

  lemma ExtendKeepsOk(limit: Option<nat>, p: Partial, frame: CanFrame, chunk: bytes, now: int)
    requires CollectedOk(FrameKey(frame), p.(frames := p.frames + [frame], payload := p.payload + chunk))
    requires p.nextFrameCount == FrameCounter(|p.frames| + 1) && p.lastUsed == now
    ensures StepOk(limit, FrameKey(frame), now, Extend(limit, p, frame, chunk, now))
  {
    hide UnpackCanId, FrameCounter, CollectedOk, Finish, PacketOk, FrameKey;
    var q := p.(frames := p.frames + [frame], payload := p.payload + chunk);
    if UnpackCanId(frame.canId).end && Fits(limit, |q.payload|) {
      FinishOk(limit, q, frame, now);
    }
  }

  /** A first frame alone is a well-formed beginning. */
  lemma FirstFrameCollected(frame: CanFrame, now: int)
    requires frame.isExtendedId && UnpackCanId(frame.canId).begin && |frame.data| >= HEADER_EXTENSION_BYTES
    ensures CollectedOk(FrameKey(frame),
      Partial(UnpackCanId(frame.canId), ExtensionOf(frame), [frame], frame.data[HEADER_EXTENSION_BYTES..], 1, now))
  {
    hide UnpackCanId, ExtensionOf, FrameCounter;
    PayloadExtends([], frame);
    assert [] + [frame] == [frame];
    assert PayloadOf([]) + FrameChunk([frame], 0) == FrameChunk([frame], 0);
  }

  lemma BeginKeepsOk(limit: Option<nat>, frame: CanFrame, now: int)
    requires frame.isExtendedId && UnpackCanId(frame.canId).begin
    ensures StepOk(limit, FrameKey(frame), now, Begin(limit, frame, now))
  {
    hide UnpackCanId, ExtensionOf, FrameCounter, Extend, CollectedOk, FrameKey;
    if |frame.data| >= HEADER_EXTENSION_BYTES {
      FrameCounterStep(0);
      FirstFrameCollected(frame, now);
      assert [] + [frame] == [frame];
      assert [] + frame.data[HEADER_EXTENSION_BYTES..] == frame.data[HEADER_EXTENSION_BYTES..];
      ExtendKeepsOk(limit, Partial(UnpackCanId(frame.canId), ExtensionOf(frame), [], [], 1, now),
                    frame, frame.data[HEADER_EXTENSION_BYTES..], now);
    }
  }

  lemma ChainExtends(key: Key, frames: seq<CanFrame>, frame: CanFrame)
    requires Chain(key, frames) && !UnpackCanId(frames[|frames| - 1].canId).end
    requires frame.isExtendedId && FrameKey(frame) == key
    requires !UnpackCanId(frame.canId).begin && UnpackCanId(frame.canId).frameCount == FrameCounter(|frames|)
    ensures Chain(key, frames + [frame])
  {
    hide UnpackCanId, FrameCounter;
  }

  lemma ContinueKeepsOk(limit: Option<nat>, p: Partial, frame: CanFrame, now: int)
    requires frame.isExtendedId && !UnpackCanId(frame.canId).begin
    requires PartialOk(limit, FrameKey(frame), p) && UnpackCanId(frame.canId).frameCount == p.nextFrameCount
    ensures StepOk(limit, FrameKey(frame), now, StepEntry(limit, Some(p), frame, now))
  {
    hide UnpackCanId, ExtensionOf, FrameCounter, Extend, StepOk;
    FrameCounterStep(|p.frames|);
    ChainExtends(FrameKey(frame), p.frames, frame);
    PayloadExtends(p.frames, frame);
    ExtendKeepsOk(limit, p.(nextFrameCount := p.nextFrameCount + 1, lastUsed := now), frame, frame.data, now);
  }

  lemma StepKeepsPartialOk(limit: Option<nat>, entry: Option<Partial>, frame: CanFrame, now: int)
    requires frame.isExtendedId
    requires entry.Some? ==> PartialOk(limit, FrameKey(frame), entry.value)
    ensures StepOk(limit, FrameKey(frame), now, StepEntry(limit, entry, frame, now))
  {
    hide UnpackCanId, Begin, Extend, PartialOk, PacketOk;
    var c := UnpackCanId(frame.canId);
    if c.begin {
      BeginKeepsOk(limit, frame, now);
    } else if entry.Some? && c.frameCount == entry.value.nextFrameCount {
      ContinueKeepsOk(limit, entry.value, frame, now);
    }
  }

  lemma SetKeepsTableOk(cfg: Config, t: Table, key: Key, entry: Option<Partial>)
    requires TableOk(cfg, t) && (entry.Some? ==> PartialOk(cfg.limit, key, entry.value))
    ensures TableOk(cfg, t.Set(key, entry))
  {
    hide PartialOk;
  }

  lemma ExpireKeepsTableOk(cfg: Config, t: Table, now: int)
    requires TableOk(cfg, t)
    ensures TableOk(cfg, Expire(cfg.timeout, t, now).table)
    ensures PacketsOk(cfg.limit, Expire(cfg.timeout, t, now).events)
  {
    hide PartialOk, PacketOk;
  }

  lemma ApplyKeepsTableOk(cfg: Config, t: Table, op: Op)
    requires TableOk(cfg, t)
    ensures TableOk(cfg, Apply(cfg, t, op).table)
    ensures PacketsOk(cfg.limit, Apply(cfg, t, op).events)
  {
    hide UnpackCanId, StepEntry, PartialOk, PacketOk, Expire;
    ExpireKeepsTableOk(cfg, t, op.now);
    if op.FeedOp? && op.frame.isExtendedId {
      var entry := t.Get(FrameKey(op.frame));
      StepKeepsPartialOk(cfg.limit, entry, op.frame, op.now);
      SetKeepsTableOk(cfg, BeforeStep(cfg, t, op.frame, op.now).table, FrameKey(op.frame),
                      StepEntry(cfg.limit, entry, op.frame, op.now).entry);
    }
  }

  /** Over every run: every packet held is a well-formed prefix, and every packet
      completed is a whole, in-order chain within the limit. */
  lemma {:induction false} RunKeepsTableOk(cfg: Config, t: Table, ops: seq<Op>)
    requires TableOk(cfg, t)
    ensures TableOk(cfg, Run(cfg, t, ops).table)
    ensures PacketsOk(cfg.limit, Run(cfg, t, ops).events)
  {
    if ops != [] {
      RunKeepsTableOk(cfg, t, ops[..|ops| - 1]);
      ApplyKeepsTableOk(cfg, Run(cfg, t, ops[..|ops| - 1]).table, ops[|ops| - 1]);
    }
  }

  // ---- Agreement with the one-frame codec ----

  /** What feeding a frame under a free key tells about that frame. */
  function FreeKeyEvent(limit: Option<nat>, frame: CanFrame, now: int): Event {
    StepEntry(limit, None, frame, now).events[0]
  }

  /** Under a free key a frame completes a packet at once exactly when the one-frame
      codec decodes it, to the same packet, provided it fits the limit and its frame
      counter is zero. The counter is the difference: the codec checks it on a first
      frame and the reassembler does not. */
  lemma OneFrameAgreement(limit: Option<nat>, frame: CanFrame, now: int)
    requires frame.isExtendedId
    ensures |StepEntry(limit, None, frame, now).events| == 1
    ensures var d := DecodeFrame(frame); var c := UnpackCanId(frame.canId); var e := FreeKeyEvent(limit, frame, now);
      && (d.Ok? <==> c.frameCount == 0 && FreeKeyEvent(None, frame, now).Complete?)
      && (d.Ok? && Fits(limit, |d.value.payload|) ==> e == Complete(now, frame, d.value, c.sender, c.destination))
      && (d.Ok? && !Fits(limit, |d.value.payload|) ==> e == DropOf(Overflow, frame, now, limit))
      && (c.frameCount != 0 && e.Complete? ==> d == Err(NonzeroFrameCount))
  {
    hide UnpackCanId, UnpackHeaderExtension, ExtensionOf, HasFragmentFlag;
    assert [] + [frame] == [frame];
    if |frame.data| >= HEADER_EXTENSION_BYTES {
      assert [] + frame.data[HEADER_EXTENSION_BYTES..] == frame.data[HEADER_EXTENSION_BYTES..];
    }
  }

  /** The difference is real: every packet that fits one frame, sent with a nonzero
      frame counter, is refused by the codec and completed by the reassembler. */
  lemma NonzeroFirstCounterCompletes(fields: CspFields, payload: bytes, id: CanIdFields, now: int)
    requires !HasFragmentFlag(fields) && |payload| <= SINGLE_FRAME_MAX_PAYLOAD_BYTES
    requires id.begin && id.end && id.frameCount != 0
    requires id.priority == fields.priority && id.destination == fields.destination
    ensures var frame := CanFrame(PackCanId(id), ToBytes4(PackHeaderExtension(fields)) + payload, true);
      var e := FreeKeyEvent(None, frame, now);
      DecodeFrame(frame) == Err(NonzeroFrameCount) && e.Complete? && e.packet.fields == fields && e.packet.payload == payload
  {
    hide UnpackCanId, PackCanId, UnpackHeaderExtension, PackHeaderExtension, ToBytes4, FromBytes4, HasFragmentFlag;
    var header := ToBytes4(PackHeaderExtension(fields));
    var frame := CanFrame(PackCanId(id), header + payload, true);
    CanIdBijection(frame.canId, id);
    HeaderExtensionBijection(PackHeaderExtension(fields), fields);
    Bytes4Bijection(PackHeaderExtension(fields), header);
    assert frame.data[..4] == header && frame.data[4..] == payload;
    OneFrameAgreement(None, frame, now);
  }
}
