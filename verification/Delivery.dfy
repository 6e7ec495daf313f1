/** From packets sent on the bus to packets reaching routing: one reassembler per
    destination, each with that node's limit. */
module Delivery {
  import opened Common
  import opened CspV2
  import opened Reassembly
  import opened Loss
  import opened Interleaving

  const DEFAULT_MAX_PACKET_BYTES: nat := 256
  const REASSEMBLY_TIMEOUT_US: nat := 1_000_000

  /** The receiver of a frame: its CSP address, or none for a frame that is not CSP. */
  type Destination = Option<bv14>

  /** The packet buffer sizes of the configured nodes. */
  type Limits = map<Destination, nat>

  function LimitOf(limits: Limits, node: Destination): nat {
    if node in limits then limits[node] else DEFAULT_MAX_PACKET_BYTES
  }

  function ConfigOf(limits: Limits, node: Destination): Config {
    Config(Some(LimitOf(limits, node)), REASSEMBLY_TIMEOUT_US)
  }

  /** A packet a node discarded instead of delivering. */
  datatype DroppedPacket = DroppedPacket(
    time: int, destination: Destination, sender: Option<bv6>, reason: DropReason, limit: Option<nat>)

  /** What the receiving side has done so far. */
  datatype Receiving = Receiving(
    tables: map<Destination, Table>, routed: seq<DecodedPacket>, dropped: seq<DroppedPacket>)

  function TableOf(r: Receiving, node: Destination): Table {
    if node in r.tables then r.tables[node] else NO_PACKETS
  }

  function DestinationOf(f: CanFrame): Destination {
    if f.isExtendedId then Some(UnpackCanId(f.canId).destination) else None
  }

  /** Record one reassembly event of `node`. */
  function Record(r: Receiving, node: Destination, e: Event): Receiving {
    match e
    case Dropped(time, _, reason, source, target, limit) =>
      r.(dropped := r.dropped + [DroppedPacket(time, if node.Some? then node else target, source, reason, limit)])
    case Complete(_, _, packet, _, _) => r.(routed := r.routed + [packet])
    case Pending(_, _, _, _) => r
  }

  function RecordAll(r: Receiving, node: Destination, events: seq<Event>): Receiving {
    if events == [] then r
    else Record(RecordAll(r, node, events[..|events| - 1]), node, events[|events| - 1])
  }

  /** Feed one bus frame to the reassembler of the node it is addressed to. */
  function Deliver(limits: Limits, r: Receiving, a: Arrival): Receiving {
    var node := DestinationOf(a.frame);
    var outcome := Feed(ConfigOf(limits, node), TableOf(r, node), a.frame, a.now);
    RecordAll(r.(tables := r.tables[node := outcome.table]), node, outcome.events)
  }

  function DeliverAll(limits: Limits, r: Receiving, arrivals: seq<Arrival>): Receiving {
    if arrivals == [] then r
    else Deliver(limits, DeliverAll(limits, r, arrivals[..|arrivals| - 1]), arrivals[|arrivals| - 1])
  }

  lemma DeliverSnoc(limits: Limits, r: Receiving, arrivals: seq<Arrival>, a: Arrival)
    ensures DeliverAll(limits, r, arrivals + [a]) == Deliver(limits, DeliverAll(limits, r, arrivals), a)
  {
    hide Deliver;
    assert (arrivals + [a])[..|arrivals|] == arrivals;
  }

  lemma {:induction false} DeliverAppend(limits: Limits, r: Receiving, a: seq<Arrival>, b: seq<Arrival>)
    ensures DeliverAll(limits, r, a + b) == DeliverAll(limits, DeliverAll(limits, r, a), b)
    decreases |b|
  {
    hide Deliver, DeliverAll;
    if b == [] {
      assert a + b == a;
      DeliverNone(limits, DeliverAll(limits, r, a));
    } else {
      var init, last := b[..|b| - 1], b[|b| - 1];
      DeliverAppend(limits, r, a, init);
      DeliverSnoc(limits, r, a + init, last);
      DeliverSnoc(limits, DeliverAll(limits, r, a), init, last);
      assert a + b == (a + init) + [last] && b == init + [last];
    }
  }

  lemma DeliverNone(limits: Limits, r: Receiving)
    ensures DeliverAll(limits, r, []) == r
  {
  }

  lemma RecordSnoc(r: Receiving, node: Destination, events: seq<Event>, e: Event)
    ensures RecordAll(r, node, events + [e]) == Record(RecordAll(r, node, events), node, e)
  {
    hide Record;
    assert (events + [e])[..|events|] == events;
  }

  lemma {:induction false} RecordKeepsTables(r: Receiving, node: Destination, events: seq<Event>, tables: map<Destination, Table>)
    ensures RecordAll(r, node, events).tables == r.tables
    ensures RecordAll(r.(tables := tables), node, events) == RecordAll(r, node, events).(tables := tables)
  {
    if events != [] {
      RecordKeepsTables(r, node, events[..|events| - 1], tables);
    }
  }

  lemma {:induction false} RecordAppend(r: Receiving, node: Destination, a: seq<Event>, b: seq<Event>)
    ensures RecordAll(r, node, a + b) == RecordAll(RecordAll(r, node, a), node, b)
    decreases |b|
  {
    hide Record, RecordAll;
    if b == [] {
      assert a + b == a;
      RecordNone(RecordAll(r, node, a), node);
    } else {
      var init, last := b[..|b| - 1], b[|b| - 1];
      RecordAppend(r, node, a, init);
      RecordSnoc(r, node, a + init, last);
      RecordSnoc(RecordAll(r, node, a), node, init, last);
      assert a + b == (a + init) + [last] && b == init + [last];
    }
  }

  lemma RecordNone(r: Receiving, node: Destination)
    ensures RecordAll(r, node, []) == r
  {
  }

  /** A frame that is not CSP disturbs no packet in progress: it is one drop that names
      neither sender nor destination. */
  lemma ForeignFrameIsDropped(limits: Limits, r: Receiving, a: Arrival)
    requires !a.frame.isExtendedId
    ensures var s := Deliver(limits, r, a);
      && s.routed == r.routed && s.dropped == r.dropped + [DroppedPacket(a.now, None, None, Malformed, None)]
      && forall node :: TableOf(s, node) == TableOf(r, node)
  {
    hide UnpackCanId, RecordAll;
    var event := Event.Dropped(a.now, Some(a.frame), Malformed, None, None, None);
    RecordOne(r.(tables := r.tables[None := TableOf(r, None)]), None, event);
  }

  /** A CSP frame is for its destination alone: every other node keeps what it holds. */
  lemma OnlyDestinationHears(limits: Limits, r: Receiving, a: Arrival, node: Destination)
    requires a.frame.isExtendedId && node != Some(UnpackCanId(a.frame.canId).destination)
    ensures TableOf(Deliver(limits, r, a), node) == TableOf(r, node)
  {
    hide UnpackCanId, RecordAll, Feed;
    var to := DestinationOf(a.frame);
    var outcome := Feed(ConfigOf(limits, to), TableOf(r, to), a.frame, a.now);
    RecordKeepsTables(r.(tables := r.tables[to := outcome.table]), to, outcome.events, r.tables);
  }

  lemma RecordOne(r: Receiving, node: Destination, e: Event)
    ensures RecordAll(r, node, [e]) == Record(r, node, e)
  {
    hide Record;
    RecordSnoc(r, node, [], e);
    assert [] + [e] == [e];
  }

  // ---- One packet, delivered without interruption ----

  /** The table of a node that holds nothing but, perhaps, one packet. */
  function OneEntry(key: Key, entry: Option<Partial>): Table {
    if entry.None? then NO_PACKETS else Dict([key], map[key := entry.value])
  }

  lemma FeedOneEntry(cfg: Config, key: Key, entry: Option<Partial>, a: Arrival)
    requires a.frame.isExtendedId && FrameKey(a.frame) == key
    ensures var s := StepEntry(cfg.limit, entry, a.frame, a.now);
      Feed(cfg, OneEntry(key, entry), a.frame, a.now) == Outcome(OneEntry(key, s.entry), s.events)
  {
    hide StepEntry, UnpackCanId, FrameKey;
    var s := StepEntry(cfg.limit, entry, a.frame, a.now);
    var t := OneEntry(key, entry);
    assert t.Get(key) == entry;
    NothingExpires(cfg.timeout, a.now, NO_PACKETS, a.now);
    assert BeforeStep(cfg, t, a.frame, a.now) == Outcome(t, []);
    assert [] + s.events == s.events;
    SetOneEntry(key, entry, s.entry);
  }

  lemma SetOneEntry(key: Key, entry: Option<Partial>, next: Option<Partial>)
    ensures OneEntry(key, entry).Set(key, next) == OneEntry(key, next)
  {
    if entry.Some? && next.None? {
      assert OneEntry(key, entry).items - {key} == map[];
      assert Without([key], {key}) == [];
    } else if next.None? {
      assert NO_PACKETS.items - {key} == map[];
    } else if entry.Some? {
      assert map[key := entry.value][key := next.value] == map[key := next.value];
    }
  }

  function PacketNode(p: Packet): Destination {
    Some(p.fields.destination)
  }

  lemma {:induction false} DeliverOnePacket(limits: Limits, r: Receiving, p: Packet, arrivals: seq<Arrival>)
    requires InOrder(p, arrivals) && TableOf(r, PacketNode(p)) == NO_PACKETS
    ensures var node := PacketNode(p);
      var s := RunEntry(Some(LimitOf(limits, node)), None, arrivals);
      var done := DeliverAll(limits, r, arrivals);
      && TableOf(done, node) == OneEntry(p.PacketKey(), s.entry)
      && (forall other :: other != node ==> TableOf(done, other) == TableOf(r, other))
      && RecordAll(r, node, s.events) == done.(tables := r.tables)
  {
    hide RunEntry, DeliverAll, RecordAll, Fragment;
    var node := PacketNode(p);
    var limit := Some(LimitOf(limits, node));
    if arrivals == [] {
      RunEntryNone(limit, None);
      DeliverNone(limits, r);
      RecordNone(r, node);
    } else {
      var n := |arrivals| - 1;
      var init := arrivals[..n];
      var before := DeliverAll(limits, r, init);
      var s := RunEntry(limit, None, init);
      DeliverOnePacket(limits, r, p, init);
      DeliverSnoc(limits, r, init, arrivals[n]);
      RunEntrySnoc(limit, None, init, arrivals[n]);
      assert arrivals == init + [arrivals[n]];
      DeliverOneFrame(limits, before, p, arrivals, s.entry);
      var step := StepEntry(limit, s.entry, arrivals[n].frame, arrivals[n].now);
      RecordAppend(r, node, s.events, step.events);
      RecordKeepsTables(before, node, step.events, r.tables);
    }
  }

  lemma DeliverOneFrame(limits: Limits, r: Receiving, p: Packet, arrivals: seq<Arrival>, entry: Option<Partial>)
    requires InOrder(p, arrivals) && arrivals != [] && TableOf(r, PacketNode(p)) == OneEntry(p.PacketKey(), entry)
    ensures var a := arrivals[|arrivals| - 1]; var node := PacketNode(p);
      var s := StepEntry(Some(LimitOf(limits, node)), entry, a.frame, a.now);
      Deliver(limits, r, a)
      == RecordAll(r, node, s.events).(tables := r.tables[node := OneEntry(p.PacketKey(), s.entry)])
  {
    hide StepEntry, UnpackCanId, Feed, OneEntry, RecordAll, Fragment;
    var a := arrivals[|arrivals| - 1];
    var node := PacketNode(p);
    FeedOneEntry(ConfigOf(limits, node), p.PacketKey(), entry, a);
    var s := StepEntry(Some(LimitOf(limits, node)), entry, a.frame, a.now);
    RecordKeepsTables(r, node, s.events, r.tables[node := OneEntry(p.PacketKey(), s.entry)]);
  }

  // ---- Any sequence of packets ----

  /** The packet routing receives for `p`. */
  function RoutedPacket(p: Packet, arrivals: seq<Arrival>): DecodedPacket
    requires arrivals != []
  {
    CompletionOf(p, p.payload, arrivals).packet
  }

  /** Whether a packet is within the limit of its destination: 256 bytes unless configured. */
  predicate FitsDestination(limits: Limits, p: Packet) {
    |p.payload| <= if PacketNode(p) in limits then limits[PacketNode(p)] else 256
  }

  function DropRecord(p: Packet, reason: DropReason, now: int, limit: Option<nat>): DroppedPacket {
    DroppedPacket(now, PacketNode(p), Some(p.sender), reason, limit)
  }

  /** How many frames of `p` a node with this limit stores before it overflows. */
  function StoredBeforeOverflow(limit: nat, p: Packet): nat
    requires |p.payload| > limit
  {
    if limit < 4 then 0 else (limit - 4) / 8 + 1
  }

  /** The drops of an over-limit packet: one overflow, then one orphan for each frame
      after it. */
  function DropsOf(limit: nat, p: Packet, arrivals: seq<Arrival>): seq<DroppedPacket>
    requires |p.payload| > limit && |arrivals| <= p.Total()
  {
    var k := StoredBeforeOverflow(limit, p);
    if |arrivals| <= k then []
    else
      [DropRecord(p, Overflow, arrivals[k].now, Some(limit))] + OrphansOf(p, arrivals[k + 1..])
  }

  function OrphansOf(p: Packet, arrivals: seq<Arrival>): (drops: seq<DroppedPacket>)
    ensures |drops| == |arrivals|
  {
    seq(|arrivals|, i requires 0 <= i < |arrivals| => DropRecord(p, OrphanFragment, arrivals[i].now, None))
  }

  lemma OrphansSnoc(p: Packet, arrivals: seq<Arrival>, a: Arrival)
    ensures OrphansOf(p, arrivals + [a]) == OrphansOf(p, arrivals) + [DropRecord(p, OrphanFragment, a.now, None)]
    ensures OrphansOf(p, []) == []
  {
  }

  /** Where exactly the limit is passed. */
  lemma OverflowPosition(limit: nat, p: Packet, i: nat)
    requires |p.payload| > limit && i < p.Total()
    ensures StoredBeforeOverflow(limit, p) < p.Total()
    ensures Fits(Some(limit), Carried(|p.payload|, i)) <==> i <= StoredBeforeOverflow(limit, p)
    ensures Fits(Some(limit), Carried(|p.payload|, i + 1)) <==> i < StoredBeforeOverflow(limit, p)
  {
  }

  lemma {:induction false} PacketThatFitsIsRouted(limit: Option<nat>, r: Receiving, p: Packet, arrivals: seq<Arrival>)
    requires InOrder(p, arrivals) && Fits(limit, |p.payload|)
    ensures RecordAll(r, PacketNode(p), EventsOf(limit, p, arrivals))
      == if |arrivals| == p.Total() then r.(routed := r.routed + [RoutedPacket(p, arrivals)]) else r
  {
    hide RecordAll, EventsOf, EventOf, Fragment, FramesOf;
    if arrivals == [] {
      NothingArrived(limit, p, arrivals);
      RecordNone(r, PacketNode(p));
    } else {
      var n := |arrivals| - 1;
      PacketThatFitsIsRouted(limit, r, p, arrivals[..n]);
      EventsSnoc(limit, p, arrivals);
      RecordSnoc(r, PacketNode(p), EventsOf(limit, p, arrivals[..n]), EventOf(limit, p, arrivals, n));
      EventThatFits(limit, p, arrivals);
    }
  }

  lemma EventThatFits(limit: Option<nat>, p: Packet, arrivals: seq<Arrival>)
    requires InOrder(p, arrivals) && Fits(limit, |p.payload|) && arrivals != []
    ensures EventOf(limit, p, arrivals, |arrivals| - 1)
      == if |arrivals| == p.Total() then CompletionOf(p, p.payload, arrivals) else PendingOf(p, arrivals[|arrivals| - 1])
  {
    hide CompletionOf, PendingOf, Fragment, DropOf;
    assert arrivals[..|arrivals|] == arrivals;
  }

  lemma {:induction false} PacketOverLimitIsDropped(limit: nat, r: Receiving, p: Packet, arrivals: seq<Arrival>)
    requires InOrder(p, arrivals) && |p.payload| > limit
    ensures RecordAll(r, PacketNode(p), EventsOf(Some(limit), p, arrivals))
      == r.(dropped := r.dropped + DropsOf(limit, p, arrivals))
  {
    hide RecordAll, EventsOf, EventOf, Fragment, DropsOf;
    if arrivals == [] {
      NothingArrived(Some(limit), p, arrivals);
      RecordNone(r, PacketNode(p));
      assert DropsOf(limit, p, arrivals) == [] by { NoDrops(limit, p, arrivals); }
      assert r.dropped + [] == r.dropped;
    } else {
      var n := |arrivals| - 1;
      PacketOverLimitIsDropped(limit, r, p, arrivals[..n]);
      EventsSnoc(Some(limit), p, arrivals);
      RecordSnoc(r, PacketNode(p), EventsOf(Some(limit), p, arrivals[..n]), EventOf(Some(limit), p, arrivals, n));
      EventOverLimit(limit, p, arrivals);
      DropsSnoc(limit, p, arrivals);
      var more := DropsAdded(limit, p, arrivals);
      assert r.dropped + (DropsOf(limit, p, arrivals[..n]) + more) == (r.dropped + DropsOf(limit, p, arrivals[..n])) + more;
    }
  }

  /** What the last of `arrivals` adds to the drops. */
  function DropsAdded(limit: nat, p: Packet, arrivals: seq<Arrival>): seq<DroppedPacket>
    requires |p.payload| > limit && arrivals != []
  {
    var n := |arrivals| - 1;
    var k := StoredBeforeOverflow(limit, p);
    if n < k then []
    else if n == k then [DropRecord(p, Overflow, arrivals[n].now, Some(limit))]
    else [DropRecord(p, OrphanFragment, arrivals[n].now, None)]
  }

  lemma NoDrops(limit: nat, p: Packet, arrivals: seq<Arrival>)
    requires |p.payload| > limit && arrivals == []
    ensures DropsOf(limit, p, arrivals) == []
  {
  }

  lemma DropsSnoc(limit: nat, p: Packet, arrivals: seq<Arrival>)
    requires |p.payload| > limit && 0 < |arrivals| <= p.Total()
    ensures DropsOf(limit, p, arrivals) == DropsOf(limit, p, arrivals[..|arrivals| - 1]) + DropsAdded(limit, p, arrivals)
  {
    hide DropRecord, StoredBeforeOverflow, OrphansOf;
    var n := |arrivals| - 1;
    var k := StoredBeforeOverflow(limit, p);
    if n == k {
      OrphansSnoc(p, [], arrivals[n]);
      assert arrivals[k + 1..] == [];
    } else if n > k {
      OrphansSnoc(p, arrivals[..n][k + 1..], arrivals[n]);
      assert arrivals[k + 1..] == arrivals[..n][k + 1..] + [arrivals[n]];
    }
  }

  lemma EventOverLimit(limit: nat, p: Packet, arrivals: seq<Arrival>)
    requires InOrder(p, arrivals) && |p.payload| > limit && arrivals != []
    ensures var n := |arrivals| - 1; var k := StoredBeforeOverflow(limit, p); var a := arrivals[n];
      EventOf(Some(limit), p, arrivals, n)
      == if n < k then PendingOf(p, a)
         else if n == k then Event.Dropped(a.now, Some(a.frame), Overflow, Some(p.sender), PacketNode(p), Some(limit))
         else Event.Dropped(a.now, Some(a.frame), OrphanFragment, Some(p.sender), PacketNode(p), None)
  {
    hide CompletionOf, Fragment, UnpackCanId, StoredBeforeOverflow, Carried;
    OverflowPosition(limit, p, |arrivals| - 1);
  }

  /** What a packet, delivered whole, does to a receiver with nothing in progress. */
  function Received(limits: Limits, r: Receiving, p: Packet, arrivals: seq<Arrival>): Receiving
    requires |arrivals| == p.Total()
  {
    if FitsDestination(limits, p) then r.(routed := r.routed + [RoutedPacket(p, arrivals)])
    else r.(dropped := r.dropped + DropsOf(LimitOf(limits, PacketNode(p)), p, arrivals))
  }

  ghost predicate NothingInProgress(r: Receiving) {
    forall node :: TableOf(r, node) == NO_PACKETS
  }

  lemma WholePacketIsReceived(limits: Limits, r: Receiving, p: Packet, arrivals: seq<Arrival>)
    requires !HasFragmentFlag(p.fields) && InOrder(p, arrivals) && |arrivals| == p.Total() && NothingInProgress(r)
    ensures var done := DeliverAll(limits, r, arrivals);
      NothingInProgress(done) && done.(tables := r.tables) == Received(limits, r, p, arrivals)
  {
    hide DeliverAll, RunEntry, RecordAll, EventsOf, DropsOf, RoutedPacket, Fragment, HasFragmentFlag, InOrder;
    var node := PacketNode(p);
    var limit := LimitOf(limits, node);
    WholeDelivery(Some(limit), p, arrivals);
    EverythingDone(Some(limit), p, arrivals);
    DeliverOnePacket(limits, r, p, arrivals);
    if FitsDestination(limits, p) {
      PacketThatFitsIsRouted(Some(limit), r, p, arrivals);
    } else {
      PacketOverLimitIsDropped(limit, r, p, arrivals);
    }
  }

  lemma EverythingDone(limit: Option<nat>, p: Packet, arrivals: seq<Arrival>)
    requires |arrivals| == p.Total()
    ensures EntryAfter(limit, p, arrivals) == None
  {
  }

  /** A packet as it crosses the bus: its frames, with the times they are delivered. */
  datatype Crossing = Crossing(packet: Packet, arrivals: seq<Arrival>) {
    ghost predicate Valid() {
      !HasFragmentFlag(packet.fields) && InOrder(packet, arrivals) && |arrivals| == packet.Total()
    }
  }

  function OnTheBus(crossings: seq<Crossing>): seq<Arrival> {
    if crossings == [] then []
    else OnTheBus(crossings[..|crossings| - 1]) + crossings[|crossings| - 1].arrivals
  }

  /** The packets that fit their destination, in send order. */
  function RoutedPackets(limits: Limits, crossings: seq<Crossing>): seq<DecodedPacket>
    requires forall i :: 0 <= i < |crossings| ==> crossings[i].Valid()
  {
    if crossings == [] then []
    else
      var c := crossings[|crossings| - 1];
      assert c.Valid();
      RoutedPackets(limits, crossings[..|crossings| - 1])
      + if FitsDestination(limits, c.packet) then [RoutedPacket(c.packet, c.arrivals)] else []
  }

  /** The drops of the packets that do not fit, in send order. */
  function DroppedPackets(limits: Limits, crossings: seq<Crossing>): seq<DroppedPacket>
    requires forall i :: 0 <= i < |crossings| ==> crossings[i].Valid()
  {
    if crossings == [] then []
    else
      var c := crossings[|crossings| - 1];
      assert c.Valid();
      DroppedPackets(limits, crossings[..|crossings| - 1])
      + if FitsDestination(limits, c.packet) then [] else DropsOf(LimitOf(limits, PacketNode(c.packet)), c.packet, c.arrivals)
  }

  /** For any sequence of packets sent over the bus, whatever their sources, keys and
      times: exactly those that fit their destination reach routing, in send order and
      unchanged; every other one gives one overflow and then one orphan per remaining
      frame; and nothing is left in progress anywhere. */
  lemma {:induction false} EndToEndDelivery(limits: Limits, r: Receiving, crossings: seq<Crossing>)
    requires NothingInProgress(r) && forall i :: 0 <= i < |crossings| ==> crossings[i].Valid()
    ensures var done := DeliverAll(limits, r, OnTheBus(crossings));
      && NothingInProgress(done)
      && done.routed == r.routed + RoutedPackets(limits, crossings)
      && done.dropped == r.dropped + DroppedPackets(limits, crossings)
  {
    hide DeliverAll, NothingInProgress, RoutedPackets, DroppedPackets, Received, OnTheBus, Fragment, HasFragmentFlag, InOrder;
    if crossings == [] {
      DeliverNone(limits, r);
      NothingCrosses(limits);
    } else {
      var n := |crossings| - 1;
      var c := crossings[n];
      var before := DeliverAll(limits, r, OnTheBus(crossings[..n]));
      EndToEndDelivery(limits, r, crossings[..n]);
      DeliverAppend(limits, r, OnTheBus(crossings[..n]), c.arrivals);
      assert c.Valid();
      WholePacketIsReceived(limits, before, c.packet, c.arrivals);
      LastCrossing(limits, before, crossings);
    }
  }

  lemma NothingCrosses(limits: Limits)
    ensures OnTheBus([]) == [] && RoutedPackets(limits, []) == [] && DroppedPackets(limits, []) == []
  {
  }

  /** What the last packet adds. */
  lemma LastCrossing(limits: Limits, r: Receiving, crossings: seq<Crossing>)
    requires crossings != [] && forall i :: 0 <= i < |crossings| ==> crossings[i].Valid()
    ensures var init, c := crossings[..|crossings| - 1], crossings[|crossings| - 1];
      && OnTheBus(crossings) == OnTheBus(init) + c.arrivals
      && |c.arrivals| == c.packet.Total()
      && RoutedPackets(limits, crossings) == RoutedPackets(limits, init) + Received(limits, r, c.packet, c.arrivals).routed[|r.routed|..]
      && DroppedPackets(limits, crossings) == DroppedPackets(limits, init) + Received(limits, r, c.packet, c.arrivals).dropped[|r.dropped|..]
      && r.routed <= Received(limits, r, c.packet, c.arrivals).routed && r.dropped <= Received(limits, r, c.packet, c.arrivals).dropped
  {
    hide RoutedPacket, DropsOf, FitsDestination, Fragment, HasFragmentFlag, InOrder;
    var c := crossings[|crossings| - 1];
    assert c.Valid();
    assert r.routed + [] == r.routed && r.dropped + [] == r.dropped;
  }
}
