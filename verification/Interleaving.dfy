/** Packets of different keys do not disturb each other, and consecutive packets of
    one sender have different keys. */
module Interleaving {
  import opened Common
  import opened CspV2
  import opened Reassembly
  import opened Loss

  /** The frames of `key` in a run, in order. */
  function ArrivalsFor(key: Key, ops: seq<Op>): seq<Arrival> {
    if ops == [] then []
    else
      var op := ops[|ops| - 1];
      ArrivalsFor(key, ops[..|ops| - 1])
      + if op.FeedOp? && op.frame.isExtendedId && FrameKey(op.frame) == key then [Arrival(op.frame, op.now)] else []
  }

  /** Whether an event is about a frame of `key`. */
  predicate About(key: Key, e: Event) {
    match e
    case Complete(_, last, _, _, _) => FrameKey(last) == key
    case Pending(_, stored, _, _) => FrameKey(stored) == key
    case Dropped(_, frame, _, _, _, _) => frame.Some? && frame.value.isExtendedId && FrameKey(frame.value) == key
  }

  function EventsFor(key: Key, events: seq<Event>): seq<Event> {
    if events == [] then []
    else
      var e := events[|events| - 1];
      EventsFor(key, events[..|events| - 1]) + if About(key, e) then [e] else []
  }

  lemma {:induction false} EventsForAppend(key: Key, a: seq<Event>, b: seq<Event>)
    ensures EventsFor(key, a + b) == EventsFor(key, a) + EventsFor(key, b)
  {
    if b == [] {
      assert a + b == a;
    } else {
      EventsForAppend(key, a, b[..|b| - 1]);
      assert (a + b)[..|a + b| - 1] == a + b[..|b| - 1];
      hide About;
    }
  }

  lemma {:induction false} EventsForAll(key: Key, events: seq<Event>, about: bool)
    requires forall i :: 0 <= i < |events| ==> About(key, events[i]) == about
    ensures EventsFor(key, events) == if about then events else []
  {
    hide About;
    if events != [] {
      EventsForAll(key, events[..|events| - 1], about);
    }
  }

  lemma ExtendIsAboutItsFrame(key: Key, limit: Option<nat>, p: Partial, frame: CanFrame, chunk: bytes, now: int)
    requires frame.isExtendedId
    ensures var events := Extend(limit, p, frame, chunk, now).events;
      |events| == 1 && About(key, events[0]) == (FrameKey(frame) == key)
  {
    hide FrameKey, UnpackCanId, UnpackHeaderExtension, HasFragmentFlag;
  }

  /** Every event of a step is about the frame fed. */
  lemma StepIsAboutItsFrame(key: Key, limit: Option<nat>, entry: Option<Partial>, frame: CanFrame, now: int)
    requires frame.isExtendedId
    ensures var events := StepEntry(limit, entry, frame, now).events;
      EventsFor(key, events) == if FrameKey(frame) == key then events else []
  {
    hide FrameKey, UnpackCanId, ExtensionOf, Extend, EventsFor;
    ExtendIsAboutItsFrame(key, limit, Partial(UnpackCanId(frame.canId), if |frame.data| >= 4 then ExtensionOf(frame) else 0, [], [], 1, now),
      frame, if |frame.data| >= 4 then frame.data[4..] else [], now);
    if entry.Some? {
      ExtendIsAboutItsFrame(key, limit, entry.value.(nextFrameCount := entry.value.nextFrameCount + 1, lastUsed := now),
        frame, frame.data, now);
    }
    var events := StepEntry(limit, entry, frame, now).events;
    EventsForAll(key, events, FrameKey(frame) == key);
  }

  // ---- Non-interference ----

  /** Nothing held is older than `start`. */
  ghost predicate FreshSince(start: int, t: Table) {
    forall k :: k in t.items ==> t.items[k].lastUsed >= start
  }

  /** All times lie within one timeout of `start`. */
  ghost predicate WithinWindow(timeout: nat, start: int, ops: seq<Op>) {
    forall i :: 0 <= i < |ops| ==> start <= ops[i].now <= start + timeout
  }

  lemma NothingExpires(timeout: nat, start: int, t: Table, now: int)
    requires FreshSince(start, t) && now <= start + timeout
    ensures Expire(timeout, t, now) == Outcome(t, [])
  {
    assert StaleKeys(timeout, t, now) == {};
    WithoutNothing(t.keys, {});
    WithinNothing(t.keys);
    assert t.items - {} == t.items;
  }

  /** The machine of a key stores the time of the frame it was given. */
  lemma StepUsesNow(limit: Option<nat>, entry: Option<Partial>, frame: CanFrame, now: int)
    ensures StepEntry(limit, entry, frame, now).entry.Some? ==>
      StepEntry(limit, entry, frame, now).entry.value.lastUsed == now
  {
    hide UnpackCanId, ExtensionOf, UnpackHeaderExtension, HasFragmentFlag;
  }

  lemma ArrivalsForOne(key: Key, op: Op)
    ensures ArrivalsFor(key, [op])
      == if op.FeedOp? && op.frame.isExtendedId && FrameKey(op.frame) == key then [Arrival(op.frame, op.now)] else []
  {
    assert [op][..0] == [];
    hide FrameKey;
  }

  lemma RunEntryOne(limit: Option<nat>, entry: Option<Partial>, a: Arrival)
    ensures RunEntry(limit, entry, [a]) == StepEntry(limit, entry, a.frame, a.now)
  {
    hide StepEntry;
    assert [a][..0] == [];
  }

  lemma ApplyWithinWindow(cfg: Config, start: int, key: Key, t: Table, op: Op)
    requires FreshSince(start, t) && start <= op.now <= start + cfg.timeout
    ensures var r := Apply(cfg, t, op); var e := RunEntry(cfg.limit, t.Get(key), ArrivalsFor(key, [op]));
      FreshSince(start, r.table) && r.table.Get(key) == e.entry && EventsFor(key, r.events) == e.events
  {
    hide StepEntry, FrameKey, UnpackCanId, Expire, About, ArrivalsFor, EventsFor, RunEntry;
    NothingExpires(cfg.timeout, start, t, op.now);
    ArrivalsForOne(key, op);
    RunEntryNone(cfg.limit, t.Get(key));
    EventsForAll(key, [], false);
    if op.FeedOp? && op.frame.isExtendedId {
      var mine := FrameKey(op.frame);
      var s := StepEntry(cfg.limit, t.Get(mine), op.frame, op.now);
      StepUsesNow(cfg.limit, t.Get(mine), op.frame, op.now);
      StepIsAboutItsFrame(key, cfg.limit, t.Get(mine), op.frame, op.now);
      RunEntryOne(cfg.limit, t.Get(mine), Arrival(op.frame, op.now));
      assert Apply(cfg, t, op) == Outcome(t.Set(mine, s.entry), s.events) by { assert [] + s.events == s.events; }
    } else if op.FeedOp? {
      NotCspIsAboutNothing(key, op.frame, op.now);
    }
  }

  lemma NotCspIsAboutNothing(key: Key, frame: CanFrame, now: int)
    requires !frame.isExtendedId
    ensures EventsFor(key, [Dropped(now, Some(frame), Malformed, None, None, None)]) == []
  {
    EventsForAll(key, [Dropped(now, Some(frame), Malformed, None, None, None)], false);
  }

  /** Within one timeout window, the events and the table entry of a key are those
      of running only that key's frames. */
  lemma {:induction false} NonInterference(cfg: Config, start: int, key: Key, t: Table, ops: seq<Op>)
    requires FreshSince(start, t) && WithinWindow(cfg.timeout, start, ops)
    ensures var r := Run(cfg, t, ops); var e := RunEntry(cfg.limit, t.Get(key), ArrivalsFor(key, ops));
      FreshSince(start, r.table) && r.table.Get(key) == e.entry && EventsFor(key, r.events) == e.events
  {
    hide Apply, StepEntry, UnpackCanId, About;
    if ops != [] {
      var n := |ops| - 1;
      var r := Run(cfg, t, ops[..n]);
      var last := ops[n];
      NonInterference(cfg, start, key, t, ops[..n]);
      ApplyWithinWindow(cfg, start, key, r.table, last);
      EventsForAppend(key, r.events, Apply(cfg, r.table, last).events);
      RunEntryAppend(cfg.limit, t.Get(key), ArrivalsFor(key, ops[..n]), ArrivalsFor(key, [last]));
      assert [last][..0] == [];
      assert ArrivalsFor(key, ops) == ArrivalsFor(key, ops[..n]) + ArrivalsFor(key, [last]);
    }
  }

  lemma {:induction false} RunEntryAppend(limit: Option<nat>, entry: Option<Partial>, a: seq<Arrival>, b: seq<Arrival>)
    ensures var first := RunEntry(limit, entry, a); var second := RunEntry(limit, first.entry, b);
      RunEntry(limit, entry, a + b) == Step(second.entry, first.events + second.events)
  {
    hide StepEntry, RunEntry;
    if b == [] {
      assert a + b == a;
      RunEntryNone(limit, RunEntry(limit, entry, a).entry);
    } else {
      var init, last := b[..|b| - 1], b[|b| - 1];
      var first := RunEntry(limit, entry, a);
      var second := RunEntry(limit, first.entry, init);
      RunEntryAppend(limit, entry, a, init);
      RunEntrySnoc(limit, entry, a + init, last);
      RunEntrySnoc(limit, first.entry, init, last);
      assert a + b == (a + init) + [last] && b == init + [last];
      var s := StepEntry(limit, second.entry, last.frame, last.now);
      assert (first.events + second.events) + s.events == first.events + (second.events + s.events);
    }
  }

  // ---- Interleaved packets ----

  const NO_PACKETS: Table := Dict([], map[])

  ghost predicate DistinctKeys(packets: seq<Packet>) {
    forall i, j :: 0 <= i < j < |packets| ==> packets[i].PacketKey() != packets[j].PacketKey()
  }

  /** Loss on a busy link: within one window and under a key not in use, whatever else is
      received, a packet completes exactly when its delivered frames say so, and then with
      exactly what they carry. */
  lemma LossAmongOtherTraffic(cfg: Config, start: int, t: Table, ops: seq<Op>, p: Packet, indices: seq<nat>)
    requires FreshSince(start, t) && WithinWindow(cfg.timeout, start, ops) && t.Get(p.PacketKey()) == None
    requires !HasFragmentFlag(p.fields) && Delivered(p, indices, ArrivalsFor(p.PacketKey(), ops))
    ensures var key := p.PacketKey(); var r := Run(cfg, t, ops); var mine := ArrivalsFor(key, ops);
      && (HasCompletion(EventsFor(key, r.events)) <==>
            indices != [] && indices[|indices| - 1] == p.Total() - 1 && Intact(cfg.limit, p, indices))
      && (HasCompletion(EventsFor(key, r.events)) ==>
            && r.table.Get(key) == None
            && EventsFor(key, r.events)
               == PendingsOf(p, mine[..|mine| - 1]) + [CompletionOf(p, DeliveredPayload(p, indices), mine)])
  {
    hide Run, RunEntry, HasCompletion, EventsFor, ArrivalsFor, Intact, HasFragmentFlag, DeliveredPayload,
      PendingsOf, CompletionOf;
    NonInterference(cfg, start, p.PacketKey(), t, ops);
    LossCharacterisation(cfg.limit, p, indices, ArrivalsFor(p.PacketKey(), ops));
  }

  /** `ops` feeds the frames of each packet in order, in any interleaving, and
      nothing else but frames that are not CSP. */
  ghost predicate Interleaves(packets: seq<Packet>, ops: seq<Op>) {
    && (forall j :: 0 <= j < |packets| ==>
          var mine := ArrivalsFor(packets[j].PacketKey(), ops);
          InOrder(packets[j], mine) && |mine| == packets[j].Total())
    && (forall key :: ArrivalsFor(key, ops) != [] ==> exists j :: 0 <= j < |packets| && packets[j].PacketKey() == key)
  }

  /** Every packet of an interleaving within one window gives exactly the events it
      would give alone (so it completes if it fits), and nothing is left over. */
  lemma InterleavedPackets(cfg: Config, start: int, packets: seq<Packet>, ops: seq<Op>)
    requires WithinWindow(cfg.timeout, start, ops) && Interleaves(packets, ops)
    requires forall j :: 0 <= j < |packets| ==> !HasFragmentFlag(packets[j].fields)
    ensures forall j :: 0 <= j < |packets| ==>
      var p := packets[j]; var mine := ArrivalsFor(p.PacketKey(), ops);
      EventsFor(p.PacketKey(), Run(cfg, NO_PACKETS, ops).events) == EventsOf(cfg.limit, p, mine)
    ensures Run(cfg, NO_PACKETS, ops).table.items == map[]
  {
    var r := Run(cfg, NO_PACKETS, ops);
    forall j | 0 <= j < |packets|
      ensures var p := packets[j]; var mine := ArrivalsFor(p.PacketKey(), ops);
        EventsFor(p.PacketKey(), r.events) == EventsOf(cfg.limit, p, mine) && r.table.Get(p.PacketKey()) == None
    {
      var p := packets[j];
      NonInterference(cfg, start, p.PacketKey(), NO_PACKETS, ops);
      WholeDelivery(cfg.limit, p, ArrivalsFor(p.PacketKey(), ops));
      hide Run, RunEntry, EventsOf, ArrivalsFor, EventsFor, InOrder, HasFragmentFlag;
    }
    forall key ensures key !in r.table.items {
      NonInterference(cfg, start, key, NO_PACKETS, ops);
      hide Run, EventsOf, ArrivalsFor, EventsFor, InOrder, HasFragmentFlag;
    }
  }

  // ---- Consecutive packets of one sender ----

  datatype SenderId = SenderId(value: bv6)
  type Counters = map<SenderId, bv2>

  function CounterOf(counts: Counters, sender: bv6): bv2 {
    if SenderId(sender) in counts then counts[SenderId(sender)] else 0
  }

  datatype Request = Request(fields: CspFields, payload: bytes, sender: Option<bv6>)

  function RequestSender(q: Request): bv6 {
    SenderOf(q.fields, q.sender)
  }

  /** Whether a node with this buffer size sends the packet. */
  function Refusal(maxPacketBytes: nat, q: Request): Option<CspError> {
    if |q.payload| > maxPacketBytes then Some(OverSenderLimit)
    else if HasFragmentFlag(q.fields) then Some(FragmentFlag)
    else None
  }

  function CountersAfter(maxPacketBytes: nat, counts: Counters, q: Request): Counters {
    if Refusal(maxPacketBytes, q).Some? then counts
    else counts[SenderId(RequestSender(q)) := CounterOf(counts, RequestSender(q)) + 1]
  }

  function PacketFor(counts: Counters, q: Request): Packet {
    Packet(q.fields, q.payload, RequestSender(q), CounterOf(counts, RequestSender(q)))
  }

  datatype Sending = Sending(counts: Counters, packets: seq<Packet>)

  /** The packets a node sends for a list of requests. */
  function SendAll(maxPacketBytes: nat, counts: Counters, requests: seq<Request>): Sending {
    if requests == [] then Sending(counts, [])
    else
      var before := SendAll(maxPacketBytes, counts, requests[..|requests| - 1]);
      var q := requests[|requests| - 1];
      Sending(CountersAfter(maxPacketBytes, before.counts, q),
              before.packets + if Refusal(maxPacketBytes, q).Some? then [] else [PacketFor(before.counts, q)])
  }

  /** How many of the packets have this sender. */
  function SentBy(sender: bv6, packets: seq<Packet>): nat {
    if packets == [] then 0
    else SentBy(sender, packets[..|packets| - 1]) + if packets[|packets| - 1].sender == sender then 1 else 0
  }

  function PacketCounter(n: nat): bv2 { (n % 4) as bv2 }

  lemma PacketCounterStep(n: nat)
    ensures PacketCounter(n + 1) == PacketCounter(n) + 1
  {
  }

  lemma PacketCounterAgree(m: nat, n: nat)
    ensures PacketCounter(m) == PacketCounter(n) <==> m % 4 == n % 4
  {
  }

  lemma LessThanFourApart(m: nat, n: nat)
    requires m < n < m + 4
    ensures PacketCounter(m) != PacketCounter(n)
  {
    PacketCounterAgree(m, n);
  }

  lemma SentBySnoc(sender: bv6, packets: seq<Packet>, p: Packet)
    ensures SentBy(sender, packets + [p]) == SentBy(sender, packets) + if p.sender == sender then 1 else 0
  {
    assert (packets + [p])[..|packets|] == packets;
  }

  lemma {:induction false} SentByMonotone(sender: bv6, packets: seq<Packet>, m: nat, n: nat)
    requires m <= n <= |packets|
    ensures SentBy(sender, packets[..m]) <= SentBy(sender, packets[..n])
    decreases n
  {
    if m < n {
      SentByMonotone(sender, packets, m, n - 1);
      assert packets[..n] == packets[..n - 1] + [packets[n - 1]];
      SentBySnoc(sender, packets[..n - 1], packets[n - 1]);
    }
  }

  /** What a node with this buffer size is meant to send: a payload that fits, without the
      fragment flag, which is bit 4. */
  predicate ToBeSent(maxPacketBytes: nat, q: Request) {
    |q.payload| <= maxPacketBytes && q.fields.flags & 0x10 == 0
  }

  function Chosen(maxPacketBytes: nat, requests: seq<Request>): seq<Request> {
    if requests == [] then []
    else
      var q := requests[|requests| - 1];
      Chosen(maxPacketBytes, requests[..|requests| - 1]) + if ToBeSent(maxPacketBytes, q) then [q] else []
  }

  /** `p` is the packet of `q`: by default its sender is the low six bits of its source. */
  predicate IsPacketOf(p: Packet, q: Request) {
    && p.fields == q.fields && p.payload == q.payload
    && p.sender == if q.sender.Some? then q.sender.value else (q.fields.source & 0x3F) as bv6
  }

  lemma RefusalIsExact(maxPacketBytes: nat, q: Request)
    ensures Refusal(maxPacketBytes, q) ==
      if |q.payload| > maxPacketBytes then Some(OverSenderLimit)
      else if q.fields.flags & 0x10 != 0 then Some(FragmentFlag)
      else None
    ensures Refusal(maxPacketBytes, q).None? <==> ToBeSent(maxPacketBytes, q)
  {
  }

  /** A node sends exactly what it is meant to: one packet for each such request, in order. */
  lemma {:induction false} SentAreChosen(maxPacketBytes: nat, counts: Counters, requests: seq<Request>)
    ensures var packets := SendAll(maxPacketBytes, counts, requests).packets; var chosen := Chosen(maxPacketBytes, requests);
      |packets| == |chosen| && forall i :: 0 <= i < |packets| ==> IsPacketOf(packets[i], chosen[i])
  {
    hide CountersAfter, CounterOf, Refusal, ToBeSent;
    if requests != [] {
      SentAreChosen(maxPacketBytes, counts, requests[..|requests| - 1]);
      RefusalIsExact(maxPacketBytes, requests[|requests| - 1]);
    }
  }

  /** Every counter is the number of packets its sender sent before, modulo 4. */
  ghost predicate CountersMatch(s: Sending) {
    && (forall sender :: CounterOf(s.counts, sender) == PacketCounter(SentBy(sender, s.packets)))
    && (forall j :: 0 <= j < |s.packets| ==>
          s.packets[j].packetCount == PacketCounter(SentBy(s.packets[j].sender, s.packets[..j])))
  }

  lemma OneMoreSent(s: Sending, p: Packet)
    requires CountersMatch(s) && p.packetCount == CounterOf(s.counts, p.sender)
    ensures CountersMatch(Sending(s.counts[SenderId(p.sender) := p.packetCount + 1], s.packets + [p]))
  {
    hide PacketCounter, SentBy;
    PacketCounterStep(SentBy(p.sender, s.packets));
    var longer := s.packets + [p];
    var counts := s.counts[SenderId(p.sender) := p.packetCount + 1];
    forall sender ensures CounterOf(counts, sender) == PacketCounter(SentBy(sender, longer)) {
      SentBySnoc(sender, s.packets, p);
      assert CounterOf(s.counts, sender) == PacketCounter(SentBy(sender, s.packets));
    }
    forall j | 0 <= j < |longer| ensures longer[j].packetCount == PacketCounter(SentBy(longer[j].sender, longer[..j])) {
      assert longer[..j] == s.packets[..j];
      assert s.packets[..|s.packets|] == s.packets;
    }
  }

  predicate Sendable(maxPacketBytes: nat, p: Packet) {
    !HasFragmentFlag(p.fields) && |p.payload| <= maxPacketBytes
  }

  /** The packet counter of a packet is the number of packets its sender sent
      before it, modulo 4: refused packets do not count. */
  lemma {:induction false} CountersFollowSentPackets(maxPacketBytes: nat, requests: seq<Request>)
    ensures CountersMatch(SendAll(maxPacketBytes, map[], requests))
    ensures forall p :: p in SendAll(maxPacketBytes, map[], requests).packets ==> Sendable(maxPacketBytes, p)
  {
    hide CountersMatch, SenderOf, Sendable, Refusal;
    if requests == [] {
      NothingSent();
    } else {
      var n := |requests| - 1;
      CountersFollowSentPackets(maxPacketBytes, requests[..n]);
      var before := SendAll(maxPacketBytes, map[], requests[..n]);
      if Refusal(maxPacketBytes, requests[n]).None? {
        OneMoreSent(before, PacketFor(before.counts, requests[n]));
        SentIsSendable(maxPacketBytes, before.counts, requests[n]);
      } else {
        assert before.packets + [] == before.packets;
      }
    }
  }

  lemma NothingSent()
    ensures CountersMatch(Sending(map[], []))
  {
    assert PacketCounter(0) == 0;
  }

  lemma SentIsSendable(maxPacketBytes: nat, counts: Counters, q: Request)
    requires Refusal(maxPacketBytes, q).None?
    ensures Sendable(maxPacketBytes, PacketFor(counts, q))
  {
  }

  /** Packets `from` to `upto` of one node, at most four of them by any sender, all
      have different keys. */
  lemma FourInFlightHaveDistinctKeys(maxPacketBytes: nat, requests: seq<Request>, from: nat, upto: nat)
    requires var sent := SendAll(maxPacketBytes, map[], requests).packets;
      && from <= upto <= |sent|
      && forall sender :: SentBy(sender, sent[..upto]) - SentBy(sender, sent[..from]) <= 4
    ensures DistinctKeys(SendAll(maxPacketBytes, map[], requests).packets[from..upto])
  {
    hide SendAll, PacketCounter, SentBy, Sendable;
    var sent := SendAll(maxPacketBytes, map[], requests).packets;
    CountersFollowSentPackets(maxPacketBytes, requests);
    forall i, j | from <= i < j < upto
      ensures sent[i].PacketKey() != sent[j].PacketKey()
    {
      if sent[i].sender == sent[j].sender {
        SameSenderApart(sent, from, i, j, upto);
      }
    }
  }

  lemma SameSenderApart(sent: seq<Packet>, from: nat, i: nat, j: nat, upto: nat)
    requires from <= i < j < upto <= |sent| && sent[i].sender == sent[j].sender
    requires SentBy(sent[i].sender, sent[..upto]) - SentBy(sent[i].sender, sent[..from]) <= 4
    ensures PacketCounter(SentBy(sent[i].sender, sent[..i])) != PacketCounter(SentBy(sent[i].sender, sent[..j]))
  {
    hide SentBy, PacketCounter;
    var sender := sent[i].sender;
    SentByMonotone(sender, sent, from, i);
    SentByMonotone(sender, sent, i + 1, j);
    SentByMonotone(sender, sent, j + 1, upto);
    assert sent[..i + 1] == sent[..i] + [sent[i]] && sent[..j + 1] == sent[..j] + [sent[j]];
    SentBySnoc(sender, sent[..i], sent[i]);
    SentBySnoc(sender, sent[..j], sent[j]);
    LessThanFourApart(SentBy(sender, sent[..i]), SentBy(sender, sent[..j]));
  }

  /** Hence up to four packets in flight per sender, interleaved frame by frame in
      any way within one timeout, are all delivered exactly, if they fit. */
  lemma FourInFlightAreDelivered(
    maxPacketBytes: nat, requests: seq<Request>, from: nat, upto: nat, cfg: Config, start: int, ops: seq<Op>)
    requires var sent := SendAll(maxPacketBytes, map[], requests).packets;
      && from <= upto <= |sent|
      && (forall sender :: SentBy(sender, sent[..upto]) - SentBy(sender, sent[..from]) <= 4)
      && Interleaves(sent[from..upto], ops)
    requires WithinWindow(cfg.timeout, start, ops) && Fits(cfg.limit, maxPacketBytes)
    ensures var inFlight := SendAll(maxPacketBytes, map[], requests).packets[from..upto];
      DistinctKeys(inFlight) && forall j :: 0 <= j < |inFlight| ==>
        var p := inFlight[j]; var mine := ArrivalsFor(p.PacketKey(), ops);
        && |mine| == p.Total()
        && EventsFor(p.PacketKey(), Run(cfg, NO_PACKETS, ops).events)
           == PendingsOf(p, mine[..|mine| - 1]) + [CompletionOf(p, p.payload, mine)]
  {
    hide SendAll, SentBy, Run, ArrivalsFor, EventsFor, EventsOf, CompletionOf, PendingsOf, HasFragmentFlag, Fits, InOrder,
      CountersMatch, WithinWindow, FrameTotal;
    var inFlight := SendAll(maxPacketBytes, map[], requests).packets[from..upto];
    CountersFollowSentPackets(maxPacketBytes, requests);
    FourInFlightHaveDistinctKeys(maxPacketBytes, requests, from, upto);
    forall j | 0 <= j < |inFlight| ensures Sendable(maxPacketBytes, inFlight[j]) {
      assert inFlight[j] == SendAll(maxPacketBytes, map[], requests).packets[from + j];
    }
    InterleavedPackets(cfg, start, inFlight, ops);
    forall j | 0 <= j < |inFlight|
      ensures var p := inFlight[j]; var mine := ArrivalsFor(p.PacketKey(), ops);
        && |mine| == p.Total()
        && EventsOf(cfg.limit, p, mine) == PendingsOf(p, mine[..|mine| - 1]) + [CompletionOf(p, p.payload, mine)]
    {
      FittingIsFitting(cfg.limit, maxPacketBytes, |inFlight[j].payload|);
      FittingPacketCompletes(cfg.limit, inFlight[j], ArrivalsFor(inFlight[j].PacketKey(), ops));
    }
  }

  lemma FittingIsFitting(limit: Option<nat>, larger: nat, n: nat)
    requires Fits(limit, larger) && n <= larger
    ensures Fits(limit, n)
  {
  }

  lemma FittingPacketCompletes(limit: Option<nat>, p: Packet, arrivals: seq<Arrival>)
    requires |arrivals| == p.Total() && Fits(limit, |p.payload|)
    ensures EventsOf(limit, p, arrivals) == PendingsOf(p, arrivals[..|arrivals| - 1]) + [CompletionOf(p, p.payload, arrivals)]
  {
    hide CompletionOf, PendingOf;
    assert arrivals[..|arrivals|] == arrivals;
  }
}
