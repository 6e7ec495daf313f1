/** The packet path of the scenario runner: a sender per source, the bus, and a
    reassembler per destination, proved to deliver what Delivery.dfy describes. */
module PacketPath {
  import opened Common
  import opened CspV2
  import opened Reassembly
  import opened Loss
  import opened Interleaving
  import opened Delivery
  import opened Reassembler
  import opened InMemoryBus

  /** Everything a reassembler owns. */
  ghost function Owned(r: CspReassembler): set<object>
    reads r
  {
    {r} + r.partials.Values
  }

  ghost predicate OwnedBy(node: Destination, r: CspReassembler, owner: map<object, Destination>)
    reads r
  {
    forall o :: o in Owned(r) ==> o in owner && owner[o] == node
  }

  ghost predicate NodeOk(limits: Limits, node: Destination, r: CspReassembler, table: Table)
    reads Owned(r)
  {
    && r.Valid() && r.table == table
    && r.maxPacketBytes == Some(LimitOf(limits, node)) && r.timeoutUs == REASSEMBLY_TIMEOUT_US
  }

  /** What a node is asked to send. */
  datatype Message = Message(fields: CspFields, payload: bytes)

  /** The counters of every sender, and the packets sent, after a list of messages. */
  datatype Sends = Sends(counts: map<Destination, Counters>, packets: seq<Packet>)

  function CountersIn(counts: map<Destination, Counters>, source: Destination): Counters {
    if source in counts then counts[source] else map[]
  }

  predicate IsRefused(limits: Limits, m: Message) {
    Refusal(LimitOf(limits, Some(m.fields.source)), Request(m.fields, m.payload, None)).Some?
  }

  function SendOne(limits: Limits, s: Sends, m: Message): Sends {
    var source := Some(m.fields.source);
    var q := Request(m.fields, m.payload, None);
    var mine := CountersIn(s.counts, source);
    Sends(s.counts[source := CountersAfter(LimitOf(limits, source), mine, q)],
          s.packets + if IsRefused(limits, m) then [] else [PacketFor(mine, q)])
  }

  function SendEach(limits: Limits, counts: map<Destination, Counters>, messages: seq<Message>): Sends {
    if messages == [] then Sends(counts, [])
    else SendOne(limits, SendEach(limits, counts, messages[..|messages| - 1]), messages[|messages| - 1])
  }

  /** The messages that are to be sent: within the limit of their source, which is 256 bytes
      unless configured, and without the fragment flag, which is bit 4. */
  function Accepted(limits: Limits, messages: seq<Message>): seq<Message> {
    if messages == [] then []
    else
      var m := messages[|messages| - 1];
      var source := Some(m.fields.source);
      Accepted(limits, messages[..|messages| - 1])
      + if |m.payload| <= (if source in limits then limits[source] else 256) && m.fields.flags & 0x10 == 0 then [m] else []
  }

  /** One packet is sent for each such message, in order, with its fields and payload, and
      with the low six bits of its source as the sender. */
  lemma {:induction false} AcceptedAreSent(limits: Limits, counts: map<Destination, Counters>, messages: seq<Message>)
    ensures var packets := SendEach(limits, counts, messages).packets; var accepted := Accepted(limits, messages);
      |packets| == |accepted| && forall i :: 0 <= i < |packets| ==>
        && packets[i].fields == accepted[i].fields && packets[i].payload == accepted[i].payload
        && packets[i].sender == (accepted[i].fields.source & 0x3F) as bv6
        && !HasFragmentFlag(packets[i].fields)
  {
    hide HasFragmentFlag, CountersAfter, CounterOf, Refusal;
    if messages != [] {
      var m := messages[|messages| - 1];
      AcceptedAreSent(limits, counts, messages[..|messages| - 1]);
      RefusalIsExact(LimitOf(limits, Some(m.fields.source)), Request(m.fields, m.payload, None));
      UnflaggedHasNoFlag(m.fields);
    }
  }

  lemma UnflaggedHasNoFlag(fields: CspFields)
    ensures HasFragmentFlag(fields) <==> fields.flags & 0x10 != 0
  {
  }

  lemma SendEachSnoc(limits: Limits, counts: map<Destination, Counters>, messages: seq<Message>, m: Message)
    ensures SendEach(limits, counts, messages + [m]) == SendOne(limits, SendEach(limits, counts, messages), m)
  {
    hide SendOne;
    assert (messages + [m])[..|messages|] == messages;
  }

  lemma FramesOnBusSnoc(packets: seq<Packet>, p: Packet)
    ensures FramesOnBus(packets + [p])
      == FramesOnBus(packets) + Fragments(p.fields, p.payload, p.sender, p.packetCount)
  {
    hide Fragments;
    assert (packets + [p])[..|packets|] == packets;
  }

  ghost predicate QueueCarries(queue: seq<Envelope<CanFrame>>, frames: seq<CanFrame>) {
    |queue| == |frames| && forall i :: 0 <= i < |queue| ==> queue[i].frame == frames[i]
  }

  lemma NotOwned(node: Destination, r: CspReassembler, owner: map<object, Destination>, x: object)
    requires OwnedBy(node, r, owner) && x !in owner
    ensures x !in Owned(r)
  {
  }

  lemma NewlyOwned(node: Destination, r: CspReassembler, owner: map<object, Destination>)
    ensures OwnedBy(node, r, owner + map o | o in Owned(r) :: node)
  {
  }

  /** Claiming the objects of one node leaves those of the others. */
  lemma ClaimKeepsOthers(node: Destination, r: CspReassembler, other: Destination, s: CspReassembler,
                         owner: map<object, Destination>)
    requires other != node && OwnedBy(other, s, owner)
    requires forall o :: o in Owned(r) && o in owner ==> owner[o] == node
    ensures OwnedBy(other, s, owner + map o | o in Owned(r) :: node)
  {
  }

  class PacketPath {
    const limits: Limits
    const bus: InMemoryBusAdapter<CanFrame>
    var senders: map<Destination, CspFragmenter>
    var reassemblers: map<Destination, CspReassembler>
    var routed: seq<DecodedPacket>
    var dropped: seq<DroppedPacket>
    /** The packets in progress at each node, by value. */
    ghost var tables: map<Destination, Table>
    /** Everything the receiving side owns, and the node each object belongs to. */
    ghost var owner: map<object, Destination>

    ghost predicate ReceivingValid()
      reads this`tables, this`reassemblers, this`owner, owner.Keys
    {
      && tables.Keys == reassemblers.Keys && this !in owner && bus !in owner
      && (forall node :: node in reassemblers ==> reassemblers[node] in owner)
      && (forall node :: node in reassemblers ==> OwnedBy(node, reassemblers[node], owner))
      && (forall node :: node in reassemblers ==> NodeOk(limits, node, reassemblers[node], tables[node]))
    }

    ghost predicate SendingValid()
      reads this`senders, bus, senders.Values
    {
      bus.Valid() && SendersOk()
    }

    ghost predicate SendersOk()
      reads this`senders, senders.Values
    {
      && (forall node :: node in senders ==> senders[node].maxPacketBytes == LimitOf(limits, node))
      && forall a, b :: a in senders && b in senders && a != b ==> senders[a] != senders[b]
    }

    ghost function View(): Receiving
      reads this`tables, this`routed, this`dropped
    {
      Receiving(tables, routed, dropped)
    }

    constructor (limits: Limits)
      ensures this.limits == limits && ReceivingValid() && SendingValid() && SidesApart()
      ensures View() == Receiving(map[], [], []) && senders == map[] && bus.monitorQueue == []
      ensures fresh(bus) && owner == map[]
    {
      this.limits := limits;
      bus := new InMemoryBusAdapter();
      senders, reassemblers, routed, dropped, tables, owner := map[], map[], [], [], map[], map[];
    }

    // ---- Sending ----

    /** The packet counters of every sender. */
    ghost function Counts(): map<Destination, Counters>
      reads this`senders, senders.Values
    {
      map source | source in senders :: senders[source].packetCounts
    }

    /** The sender of a source, created on first use. */
    method SenderFor(source: Destination) returns (sender: CspFragmenter)
      requires SendingValid()
      modifies this`senders
      ensures SendingValid() && source in senders && senders[source] == sender
      ensures if source in old(senders) then senders == old(senders)
              else fresh(sender) && senders == old(senders)[source := sender]
      ensures sender.packetCounts == CountersIn(old(Counts()), source)
      ensures Counts() == old(Counts())[source := sender.packetCounts]
    {
      hide InMemoryBusAdapter.Valid;
      if source in senders {
        sender := senders[source];
      } else {
        sender := new CspFragmenter(LimitOf(limits, source));
        senders := senders[source := sender];
      }
      assert Counts() == old(Counts())[source := sender.packetCounts];
    }

    /** Fragment with the sender of `source`; the other senders keep their counters. */
    method FragmentWith(source: Destination, q: Request) returns (r: Result<seq<CanFrame>, CspError>)
      requires SendingValid() && source in senders
      modifies senders[source]
      ensures SendingValid()
      ensures var mine := CountersIn(old(Counts()), source);
        && Counts() == old(Counts())[source := CountersAfter(LimitOf(limits, source), mine, q)]
        && match Refusal(LimitOf(limits, source), q)
           case Some(error) => r == Err(error)
           case None => var p := PacketFor(mine, q); r == Ok(Fragments(p.fields, p.payload, p.sender, p.packetCount))
    {
      hide InMemoryBusAdapter.Valid, CountersAfter, Refusal, PacketFor, Fragments;
      r := senders[source].Fragment(q);
      assert Counts() == old(Counts())[source := senders[source].packetCounts];
    }

    /** Send one packet as the frames the link needs for it, with the counters of its own
        source; every other sender stays as it is. */
    method SendPacket(fields: CspFields, payload: bytes) returns (r: Result<seq<Envelope<CanFrame>>, CspError>)
      requires SendingValid()
      modifies this`senders, bus, senders.Values
      ensures SendingValid() && fresh(senders.Values - old(senders.Values))
      ensures var source := Some(fields.source);
        source in senders && senders == if source in old(senders) then old(senders) else old(senders)[source := senders[source]]
      ensures var q := Request(fields, payload, None); var source := Some(fields.source);
        var mine := CountersIn(old(Counts()), source);
        && Counts() == old(Counts())[source := CountersAfter(LimitOf(limits, source), mine, q)]
        && match Refusal(LimitOf(limits, source), q)
           case Some(error) => r == Err(error) && bus.monitorQueue == old(bus.monitorQueue)
           case None =>
             var p := PacketFor(mine, q);
             r.Ok? && QueueCarries(r.value, Fragments(p.fields, p.payload, p.sender, p.packetCount))
             && r.value != [] && bus.monitorQueue == old(bus.monitorQueue) + r.value
    {
      hide CountersAfter, Refusal, PacketFor, Fragments, LimitOf, QueueCarries, InMemoryBusAdapter.Valid, SendersOk, Counts;
      var source := Some(fields.source);
      var _ := SenderFor(source);
      var frames := FragmentWith(source, Request(fields, payload, None));
      if frames.Err? {
        return Err(frames.error);
      }
      var envelopes := PutOnBus(frames.value, fields.source as nat);
      r := Ok(envelopes);
    }

    method PutOnBus(frames: seq<CanFrame>, source: EndpointId) returns (envelopes: seq<Envelope<CanFrame>>)
      requires bus.Valid()
      modifies bus
      ensures bus.Valid() && QueueCarries(envelopes, frames)
      ensures bus.monitorQueue == old(bus.monitorQueue) + envelopes
    {
      envelopes := [];
      for i := 0 to |frames|
        invariant bus.Valid() && |envelopes| == i
        invariant forall j :: 0 <= j < i ==> envelopes[j].frame == frames[j]
        invariant bus.monitorQueue == old(bus.monitorQueue) + envelopes
      {
        var envelope := bus.Send(frames[i], Some(source));
        envelopes := envelopes + [envelope];
      }
    }

    // ---- Receiving ----

    lemma Settings(node: Destination, r: CspReassembler, table: Table)
      requires NodeOk(limits, node, r, table)
      ensures r.timeoutUs == 1_000_000 && r.maxPacketBytes == Some(if node in limits then limits[node] else 256)
    {
    }

    method NewReassembler(node: Destination) returns (r: CspReassembler)
      ensures fresh(r) && NodeOk(limits, node, r, NO_PACKETS) && Owned(r) == {r}
    {
      r := new CspReassembler(Some(LimitOf(limits, node)), REASSEMBLY_TIMEOUT_US);
    }

    /** The reassembler of a node, created on first use. */
    method ReassemblerFor(node: Destination) returns (r: CspReassembler)
      requires ReceivingValid()
      modifies this`reassemblers, this`tables, this`owner
      ensures ReceivingValid() && node in reassemblers && reassemblers[node] == r && node in tables
      ensures fresh(owner.Keys - old(owner.Keys))
      ensures if node in old(reassemblers) then reassemblers == old(reassemblers)
              else fresh(r) && reassemblers == old(reassemblers)[node := r]
      ensures r.timeoutUs == 1_000_000 && r.maxPacketBytes == Some(if node in limits then limits[node] else 256)
      ensures tables == if node in old(tables) then old(tables) else old(tables)[node := NO_PACKETS]
    {
      hide NodeOk, OwnedBy;
      forall other | other in reassemblers ensures this !in Owned(reassemblers[other]) {
        NotOwned(other, reassemblers[other], owner, this);
      }
      if node in reassemblers {
        r := reassemblers[node];
      } else {
        r := NewReassembler(node);
        reassemblers := reassemblers[node := r];
        tables := tables[node := NO_PACKETS];
        Claim(node, r);
      }
      Settings(node, r, tables[node]);
    }

    /** Feed one bus frame to a node's reassembler; the other nodes are not touched. */
    method FeedReassembler(node: Destination, frame: CanFrame, now: int) returns (events: seq<Event>)
      requires ReceivingValid() && node in reassemblers
      modifies owner.Keys
      ensures var outcome := Feed(ConfigOf(limits, node), tables[node], frame, now);
        events == outcome.events && NodeOk(limits, node, reassemblers[node], outcome.table)
      ensures forall o :: o in Owned(reassemblers[node]) ==> (o in owner && owner[o] == node) || fresh(o)
      ensures forall other :: other in reassemblers && other != node ==>
        OwnedBy(other, reassemblers[other], owner) && NodeOk(limits, other, reassemblers[other], tables[other])
    {
      hide Feed, CspReassembler.Valid;
      var r := reassemblers[node];
      ghost var mine := Owned(r);
      events := r.Feed(frame, now);
      forall other | other in reassemblers && other != node
        ensures OwnedBy(other, reassemblers[other], owner)
        ensures NodeOk(limits, other, reassemblers[other], tables[other])
      {
        var s := reassemblers[other];
        assert old(OwnedBy(other, s, owner)) && old(NodeOk(limits, other, s, tables[other]));
        forall o | o in old(Owned(s)) ensures o !in mine {
          assert old(OwnedBy(node, r, owner));
        }
      }
    }

    /** Feed one bus frame to the receiving node's reassembler. */
    method FeedNode(node: Destination, frame: CanFrame, now: int) returns (events: seq<Event>)
      requires ReceivingValid() && node in reassemblers
      modifies this`tables, this`owner, owner.Keys
      ensures ReceivingValid() && fresh(owner.Keys - old(owner.Keys))
      ensures var outcome := Feed(ConfigOf(limits, node), old(tables)[node], frame, now);
        events == outcome.events && tables == old(tables)[node := outcome.table]
    {
      hide Feed, CspReassembler.Valid, OwnedBy;
      events := FeedReassembler(node, frame, now);
      var r := reassemblers[node];
      tables := tables[node := r.table];
      Claim(node, r);
    }

    /** Record that everything `r` owns belongs to `node`. */
    ghost method Claim(node: Destination, r: CspReassembler)
      requires tables.Keys == reassemblers.Keys && this !in owner && bus !in owner
      requires node in reassemblers && reassemblers[node] == r
      requires forall o :: o in Owned(r) && o in owner ==> owner[o] == node
      requires this !in Owned(r) && bus !in Owned(r)
      requires forall other :: other in reassemblers && other != node ==> reassemblers[other] in owner
      requires forall other :: other in reassemblers && other != node ==> OwnedBy(other, reassemblers[other], owner)
      requires NodeOk(limits, node, r, tables[node])
      requires forall other :: other in reassemblers && other != node ==> NodeOk(limits, other, reassemblers[other], tables[other])
      modifies this`owner
      ensures ReceivingValid() && owner.Keys == old(owner.Keys) + Owned(r)
    {
      hide NodeOk, OwnedBy;
      forall other | other in reassemblers && other != node
        ensures OwnedBy(other, reassemblers[other], owner + map o | o in Owned(r) :: node)
        ensures this !in Owned(reassemblers[other])
      {
        NotOwned(other, reassemblers[other], owner, this);
        ClaimKeepsOthers(node, r, other, reassemblers[other], owner);
      }
      NewlyOwned(node, r, owner);
      owner := owner + map o | o in Owned(r) :: node;
    }

    lemma NotItsOwn()
      requires ReceivingValid()
      ensures this !in owner && bus !in owner && tables.Keys == reassemblers.Keys
    {
    }

    /** Feed one bus frame to the receiving node's reassembler, and route or record
        what comes of it. */
    method DeliverFrame(frame: CanFrame, now: int)
      requires ReceivingValid()
      modifies this`reassemblers, this`tables, this`routed, this`dropped, this`owner, owner.Keys
      ensures ReceivingValid() && fresh(owner.Keys - old(owner.Keys))
      ensures View() == Deliver(limits, old(View()), Arrival(frame, now))
    {
      hide Feed, UnpackCanId, Record, RecordAll, CspReassembler.Valid, ReceivingValid;
      var node := if frame.isExtendedId then Some(UnpackCanId(frame.canId).destination) else None;
      var _ := ReassemblerFor(node);
      NotItsOwn();
      var events := FeedNode(node, frame, now);
      NotItsOwn();
      SetTwice(old(tables), node, NO_PACKETS, tables[node]);
      RecordEvents(node, events);
    }

    method RecordEvents(node: Destination, events: seq<Event>)
      modifies this`routed, this`dropped
      ensures View() == RecordAll(old(View()), node, events)
    {
      hide Record;
      for i := 0 to |events|
        invariant View() == RecordAll(old(View()), node, events[..i])
      {
        assert events[..i + 1] == events[..i] + [events[i]];
        RecordSnoc(old(View()), node, events[..i], events[i]);
        RecordEvent(node, events[i]);
      }
      assert events[..|events|] == events;
    }

    method RecordEvent(node: Destination, e: Event)
      modifies this`routed, this`dropped
      ensures View() == Record(old(View()), node, e)
    {
      match e
      case Dropped(time, _, reason, source, target, limit) =>
        dropped := dropped + [DroppedPacket(time, if node.Some? then node else target, source, reason, limit)];
      case Complete(_, _, packet, _, _) =>
        routed := routed + [packet];
      case Pending(_, _, _, _) =>
    }

    /** Deliver every queued bus frame; return whether there were any. */
    method DrainTransportFrames(now: int) returns (deliveredAny: bool)
      requires ReceivingValid() && bus.Valid()
      modifies this`reassemblers, this`tables, this`routed, this`dropped, this`owner, owner.Keys, bus
      ensures ReceivingValid() && bus.Valid() && fresh(owner.Keys - old(owner.Keys))
      ensures deliveredAny == (old(bus.monitorQueue) != []) && bus.monitorQueue == []
      ensures View() == DeliverAll(limits, old(View()), ArrivalsOf(old(bus.monitorQueue), now))
    {
      hide Deliver, DeliverAll, InMemoryBusAdapter.Valid, ReceivingValid;
      NotItsOwn();
      var envelopes := bus.Drain();
      deliveredAny := false;
      DeliverNone(limits, View());
      assert ArrivalsOf(envelopes[..0], now) == [];
      for i := 0 to |envelopes|
        invariant ReceivingValid() && bus.Valid() && bus.monitorQueue == []
        invariant fresh(owner.Keys - old(owner.Keys))
        invariant deliveredAny == (i > 0)
        invariant View() == DeliverAll(limits, old(View()), ArrivalsOf(envelopes[..i], now))
      {
        NotItsOwn();
        DeliverFrame(envelopes[i].frame, now);
        assert ArrivalsOf(envelopes[..i + 1], now) == ArrivalsOf(envelopes[..i], now) + [Arrival(envelopes[i].frame, now)];
        DeliverSnoc(limits, old(View()), ArrivalsOf(envelopes[..i], now), Arrival(envelopes[i].frame, now));
        deliveredAny := true;
      }
      assert envelopes[..|envelopes|] == envelopes;
    }

    // ---- End to end ----

    /** The senders' counters, and the frames on the bus, are those of `s`. */
    ghost predicate HasSent(s: Sends)
      reads this`senders, senders.Values, bus
    {
      Counts() == s.counts && QueueCarries(bus.monitorQueue, FramesOnBus(s.packets))
    }

    method SendMessage(m: Message, ghost s: Sends)
      requires SendingValid() && HasSent(s)
      modifies this`senders, bus, senders.Values
      ensures SendingValid() && fresh(senders.Values - old(senders.Values))
      ensures HasSent(SendOne(limits, s, m))
    {
      hide Fragments, SendingValid, CountersAfter, PacketFor, LimitOf, Refusal, FramesOnBus, QueueCarries;
      ghost var mine := CountersIn(s.counts, Some(m.fields.source));
      ghost var p := PacketFor(mine, Request(m.fields, m.payload, None));
      FramesOnBusSnoc(s.packets, p);
      assert s.packets + [] == s.packets;
      var r := SendPacket(m.fields, m.payload);
      if r.Ok? {
        CarriesMore(old(bus.monitorQueue), FramesOnBus(s.packets), r.value, Fragments(p.fields, p.payload, p.sender, p.packetCount));
      }
    }

    /** Send a list of messages; those the senders refuse put nothing on the bus. */
    method SendMessages(messages: seq<Message>)
      requires SendingValid() && bus.monitorQueue == []
      modifies this`senders, bus, senders.Values
      ensures SendingValid() && fresh(senders.Values - old(senders.Values))
      ensures HasSent(SendEach(limits, old(Counts()), messages))
    {
      hide SendingValid, SendOne, FramesOnBus;
      ghost var counts := Counts();
      NoFramesOnBus();
      for i := 0 to |messages|
        invariant SendingValid() && fresh(senders.Values - old(senders.Values))
        invariant HasSent(SendEach(limits, counts, messages[..i]))
      {
        assert messages[..i + 1] == messages[..i] + [messages[i]];
        SendEachSnoc(limits, counts, messages[..i], messages[i]);
        SendMessage(messages[i], SendEach(limits, counts, messages[..i]));
      }
      assert messages[..|messages|] == messages;
    }

    /** No sender belongs to the receiving side. */
    ghost predicate SidesApart()
      reads this`senders, this`owner
    {
      this !in owner && bus !in owner && forall sender :: sender in senders.Values ==> sender !in owner
    }

    /** Send a list of messages and deliver all that is then on the bus: the packets within
        their destination's limit reach routing, in order; each other one is dropped once
        and its later frames are orphans; and nothing is left in progress. */
    method SendAndDeliver(messages: seq<Message>, now: int)
      requires SendingValid() && ReceivingValid() && SidesApart() && bus.monitorQueue == [] && NothingInProgress(View())
      modifies this`senders, bus, senders.Values
      modifies this`reassemblers, this`tables, this`routed, this`dropped, this`owner, owner.Keys
      ensures SendingValid() && ReceivingValid() && SidesApart() && bus.monitorQueue == [] && NothingInProgress(View())
      ensures var crossings := CrossingsOf(SendEach(limits, old(Counts()), messages).packets, now);
        && (forall i :: 0 <= i < |crossings| ==> crossings[i].Valid())
        && routed == old(routed) + RoutedPackets(limits, crossings)
        && dropped == old(dropped) + DroppedPackets(limits, crossings)
    {
      hide SendEach, FramesOnBus, RoutedPackets, DroppedPackets, CrossingOf, NothingInProgress, DeliverAll, Counts,
        ReceivingValid, SendersOk, InMemoryBusAdapter.Valid;
      ghost var packets := SendEach(limits, Counts(), messages).packets;
      AcceptedAreSent(limits, Counts(), messages);
      SendMessages(messages);
      DrainDeliversSentPackets(limits, View(), packets, bus.monitorQueue, now);
      var _ := DrainTransportFrames(now);
    }
  }

  lemma NoFramesOnBus()
    ensures FramesOnBus([]) == []
  {
  }

  lemma CarriesMore(a: seq<Envelope<CanFrame>>, x: seq<CanFrame>, b: seq<Envelope<CanFrame>>, y: seq<CanFrame>)
    requires QueueCarries(a, x) && QueueCarries(b, y)
    ensures QueueCarries(a + b, x + y)
  {
  }

  /** The frames of a sequence of sent packets, in bus order. */
  function FramesOnBus(packets: seq<Packet>): seq<CanFrame> {
    if packets == [] then []
    else
      var p := packets[|packets| - 1];
      FramesOnBus(packets[..|packets| - 1]) + Fragments(p.fields, p.payload, p.sender, p.packetCount)
  }

  function CrossingOf(p: Packet, now: int): Crossing {
    Crossing(p, seq(p.Total(), k requires 0 <= k < p.Total() => Arrival(p.Frame(k), now)))
  }

  function CrossingsOf(packets: seq<Packet>, now: int): seq<Crossing> {
    seq(|packets|, i requires 0 <= i < |packets| => CrossingOf(packets[i], now))
  }

  /** The arrivals of `frames`, all at `now`. */
  function ArrivalsAt(frames: seq<CanFrame>, now: int): seq<Arrival> {
    seq(|frames|, i requires 0 <= i < |frames| => Arrival(frames[i], now))
  }

  lemma ArrivalsAtAppend(a: seq<CanFrame>, b: seq<CanFrame>, now: int)
    ensures ArrivalsAt(a + b, now) == ArrivalsAt(a, now) + ArrivalsAt(b, now)
  {
  }

  lemma OnTheBusSnoc(crossings: seq<Crossing>, c: Crossing)
    ensures OnTheBus(crossings + [c]) == OnTheBus(crossings) + c.arrivals
  {
    assert (crossings + [c])[..|crossings|] == crossings;
  }

  lemma {:induction false} BusCarriesCrossings(packets: seq<Packet>, now: int)
    ensures OnTheBus(CrossingsOf(packets, now)) == ArrivalsAt(FramesOnBus(packets), now)
  {
    hide Fragments, CrossingOf, ArrivalsAt, OnTheBus, FramesOnBus;
    if packets == [] {
      EmptyBus(now);
    } else {
      var n := |packets| - 1;
      var p := packets[n];
      BusCarriesCrossings(packets[..n], now);
      assert CrossingsOf(packets, now) == CrossingsOf(packets[..n], now) + [CrossingOf(p, now)];
      OnTheBusSnoc(CrossingsOf(packets[..n], now), CrossingOf(p, now));
      assert packets == packets[..n] + [p];
      FramesOnBusSnoc(packets[..n], p);
      ArrivalsAtAppend(FramesOnBus(packets[..n]), Fragments(p.fields, p.payload, p.sender, p.packetCount), now);
      CrossingArrivals(p, now);
    }
  }

  lemma EmptyBus(now: int)
    ensures OnTheBus([]) == ArrivalsAt(FramesOnBus([]), now) == []
    ensures CrossingsOf([], now) == []
  {
  }

  lemma CrossingArrivals(p: Packet, now: int)
    ensures CrossingOf(p, now).arrivals == ArrivalsAt(Fragments(p.fields, p.payload, p.sender, p.packetCount), now)
  {
    hide CrossingOf, Fragment;
    OneCrossing(p, now);
  }

  lemma OneCrossing(p: Packet, now: int)
    ensures var frames := Fragments(p.fields, p.payload, p.sender, p.packetCount);
      |CrossingOf(p, now).arrivals| == |frames| == p.Total()
      && forall i :: 0 <= i < |frames| ==>
        CrossingOf(p, now).arrivals[i] == Arrival(frames[i], now) && frames[i] == p.Frame(i)
  {
    hide Fragment;
  }

  /** What draining the bus delivers, when the frames on it are those of a sequence of
      packets: the packets that fit, in send order, and the drops of the others. */
  lemma DrainDeliversSentPackets(limits: Limits, r: Receiving, packets: seq<Packet>, queue: seq<Envelope<CanFrame>>, now: int)
    requires NothingInProgress(r) && forall i :: 0 <= i < |packets| ==> !HasFragmentFlag(packets[i].fields)
    requires |queue| == |FramesOnBus(packets)|
    requires forall i :: 0 <= i < |queue| ==> queue[i].frame == FramesOnBus(packets)[i]
    ensures forall i :: 0 <= i < |packets| ==> CrossingsOf(packets, now)[i].Valid()
    ensures var done := DeliverAll(limits, r, ArrivalsOf(queue, now)); var crossings := CrossingsOf(packets, now);
      && NothingInProgress(done)
      && done.routed == r.routed + RoutedPackets(limits, crossings)
      && done.dropped == r.dropped + DroppedPackets(limits, crossings)
  {
    hide DeliverAll, NothingInProgress, RoutedPackets, DroppedPackets, Fragment, FramesOnBus, HasFragmentFlag, OnTheBus, CrossingOf;
    BusCarriesCrossings(packets, now);
    assert ArrivalsOf(queue, now) == OnTheBus(CrossingsOf(packets, now));
    forall i | 0 <= i < |packets| ensures CrossingsOf(packets, now)[i].Valid() {
      OneCrossing(packets[i], now);
      CrossingPacket(packets[i], now);
    }
    EndToEndDelivery(limits, r, CrossingsOf(packets, now));
  }

  lemma CrossingPacket(p: Packet, now: int)
    ensures CrossingOf(p, now).packet == p
  {
  }

  lemma SetTwice<K, V>(m: map<K, V>, k: K, v: V, w: V)
    ensures m[k := v][k := w] == m[k := w]
  {
  }

  /** The frames of the queued envelopes, all delivered at `now`. */
  function ArrivalsOf(envelopes: seq<Envelope<CanFrame>>, now: int): seq<Arrival> {
    seq(|envelopes|, i requires 0 <= i < |envelopes| => Arrival(envelopes[i].frame, now))
  }
}
