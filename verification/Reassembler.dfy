/** The stateful sender and receiver sides, proved to compute what Reassembly.dfy and
    Interleaving.dfy describe. */
module Reassembler {
  import opened Common
  import opened CspV2
  import opened Reassembly
  import opened Interleaving

  /** A packet partway through reassembly, extended in place as frames arrive. */
  class PartialPacket {
    const canFields: CanIdFields
    const headerExtension: bv32
    var frames: seq<CanFrame>
    var payload: bytes
    var nextFrameCount: bv3
    var lastUsed: int

    constructor (canFields: CanIdFields, headerExtension: bv32, now: int)
      ensures View() == Partial(canFields, headerExtension, [], [], 1, now)
    {
      this.canFields, this.headerExtension := canFields, headerExtension;
      frames, payload, nextFrameCount, lastUsed := [], [], 1, now;
    }

    function View(): Partial
      reads this
    {
      Partial(canFields, headerExtension, frames, payload, nextFrameCount, lastUsed)
    }

    method Collect(frame: CanFrame, chunk: bytes)
      modifies this
      ensures View() == old(View()).(frames := old(frames) + [frame], payload := old(payload) + chunk)
    {
      frames := frames + [frame];
      payload := payload + chunk;
    }
  }

  /** An expiry that has looked at the first `i` keys, oldest entry first. */
  ghost function ExpiredUpTo(timeout: nat, t: Table, now: int, i: nat): Outcome
    requires t.Valid() && i <= |t.keys|
  {
    if i == 0 then Outcome(t, [])
    else
      var before := ExpiredUpTo(timeout, t, now, i - 1);
      var key := t.keys[i - 1];
      if Stale(timeout, t.items[key], now) then
        Outcome(before.table.Remove(key), before.events + [TimeoutOf(timeout, t.items[key])])
      else before
  }

  function StaleUpTo(timeout: nat, t: Table, now: int, i: nat): set<Key>
    requires i <= |t.keys|
  {
    set k | k in t.keys[..i] && k in StaleKeys(timeout, t, now)
  }

  lemma StaleStep(timeout: nat, t: Table, now: int, i: nat)
    requires t.Valid() && i < |t.keys|
    ensures t.keys[i] !in StaleUpTo(timeout, t, now, i)
    ensures t.keys[i] in StaleKeys(timeout, t, now) <==> Stale(timeout, t.items[t.keys[i]], now)
    ensures StaleUpTo(timeout, t, now, i + 1)
      == StaleUpTo(timeout, t, now, i) + if t.keys[i] in StaleKeys(timeout, t, now) then {t.keys[i]} else {}
  {
    hide Stale;
    assert t.keys[..i + 1] == t.keys[..i] + [t.keys[i]];
  }

  lemma RemoveOneMore(t: Table, gone: set<Key>, key: Key)
    ensures t.RemoveAll(gone).Remove(key) == t.RemoveAll(gone + {key})
  {
    WithoutTwice(t.keys, gone, {key});
    assert t.items - gone - {key} == t.items - (gone + {key});
  }

  lemma TimeoutsSnoc(timeout: nat, t: Table, keys: seq<Key>, key: Key)
    requires (forall k :: k in keys ==> k in t.items) && key in t.items
    ensures TimeoutEvents(timeout, keys + [key], t.items)
      == TimeoutEvents(timeout, keys, t.items) + [TimeoutOf(timeout, t.items[key])]
  {
    hide TimeoutOf;
  }

  lemma {:induction false} ExpiredSoFar(timeout: nat, t: Table, now: int, i: nat)
    requires t.Valid() && i <= |t.keys|
    ensures ExpiredUpTo(timeout, t, now, i)
      == Outcome(t.RemoveAll(StaleUpTo(timeout, t, now, i)),
                 TimeoutEvents(timeout, Within(t.keys[..i], StaleKeys(timeout, t, now)), t.items))
  {
    hide StaleKeys, StaleUpTo, TimeoutOf, TimeoutEvents, Within, Without, ExpiredUpTo;
    var stale := StaleKeys(timeout, t, now);
    if i == 0 {
      StartExpiry(timeout, t, now);
      NothingExpired(timeout, t, now);
    } else {
      var key := t.keys[i - 1];
      var before := Within(t.keys[..i - 1], stale);
      ExpiredSoFar(timeout, t, now, i - 1);
      StepExpiry(timeout, t, now, i - 1);
      StaleStep(timeout, t, now, i - 1);
      assert t.keys[..i] == t.keys[..i - 1] + [key];
      WithinSnoc(t.keys[..i - 1], key, stale);
      if key in stale {
        RemoveOneMore(t, StaleUpTo(timeout, t, now, i - 1), key);
        TimeoutsSnoc(timeout, t, before, key);
      } else {
        assert before + [] == before;
        assert StaleUpTo(timeout, t, now, i) == StaleUpTo(timeout, t, now, i - 1);
      }
    }
  }

  lemma NothingExpired(timeout: nat, t: Table, now: int)
    requires t.Valid()
    ensures t.RemoveAll(StaleUpTo(timeout, t, now, 0)) == t
    ensures TimeoutEvents(timeout, Within(t.keys[..0], StaleKeys(timeout, t, now)), t.items) == []
  {
    WithoutNothing(t.keys, {});
    assert t.items - {} == t.items;
    assert StaleUpTo(timeout, t, now, 0) == {};
  }

  lemma AllExpired(timeout: nat, t: Table, now: int)
    requires t.Valid()
    ensures ExpiredUpTo(timeout, t, now, |t.keys|) == Reassembly.Expire(timeout, t, now)
  {
    ExpiredSoFar(timeout, t, now, |t.keys|);
    assert t.keys[..|t.keys|] == t.keys;
    assert StaleUpTo(timeout, t, now, |t.keys|) == StaleKeys(timeout, t, now);
  }

  /** Keys not yet looked at are still there. */
  lemma {:induction false} NotYetExpired(timeout: nat, t: Table, now: int, i: nat)
    requires t.Valid() && i <= |t.keys|
    ensures var r := ExpiredUpTo(timeout, t, now, i).table;
      forall j :: i <= j < |t.keys| ==> t.keys[j] in r.items && r.items[t.keys[j]] == t.items[t.keys[j]]
  {
    hide Stale, TimeoutOf;
    if i > 0 {
      NotYetExpired(timeout, t, now, i - 1);
    }
  }

  lemma StartExpiry(timeout: nat, t: Table, now: int)
    requires t.Valid()
    ensures ExpiredUpTo(timeout, t, now, 0) == Outcome(t, [])
  {
  }

  lemma StepExpiry(timeout: nat, t: Table, now: int, i: nat)
    requires t.Valid() && i < |t.keys|
    ensures var before := ExpiredUpTo(timeout, t, now, i); var p := t.items[t.keys[i]];
      ExpiredUpTo(timeout, t, now, i + 1)
      == if now - p.lastUsed > timeout
         then Outcome(before.table.Remove(t.keys[i]), before.events + [TimeoutOf(timeout, p)]) else before
  {
  }

  /** No two keys share a packet. */
  ghost predicate Distinct(partials: map<Key, PartialPacket>) {
    forall j, k :: j in partials && k in partials && j != k ==> partials[j] != partials[k]
  }

  lemma OthersDiffer(partials: map<Key, PartialPacket>, key: Key)
    requires Distinct(partials) && key in partials
    ensures forall k :: k in partials && k != key ==> partials[k] != partials[key]
  {
  }

  lemma PutKeepsDistinct(partials: map<Key, PartialPacket>, key: Key, partial: PartialPacket)
    requires Distinct(partials) && partial !in partials.Values
    ensures Distinct(partials[key := partial]) && partials[key := partial].Values <= partials.Values + {partial}
  {
  }

  lemma PutParts(t: Table, key: Key, p: Partial)
    ensures t.Put(key, p).keys == (if key in t.items then t.keys else t.keys + [key])
    ensures t.Put(key, p).items == t.items[key := p]
    ensures t.Valid() ==> t.Put(key, p).Valid()
  {
  }

  class CspReassembler {
    const maxPacketBytes: Option<nat>
    const timeoutUs: nat
    var order: seq<Key>
    var partials: map<Key, PartialPacket>
    /** The packets in progress, by value. */
    ghost var table: Table

    ghost predicate Valid()
      reads this, partials.Values
    {
      && table.Valid() && table.keys == order && table.items.Keys == partials.Keys
      && (forall k :: k in partials ==> partials[k].View() == table.items[k])
      && Distinct(partials)
    }

    ghost function Cfg(): Config {
      Config(maxPacketBytes, timeoutUs)
    }

    constructor (maxPacketBytes: Option<nat>, timeoutUs: nat)
      ensures this.maxPacketBytes == maxPacketBytes && this.timeoutUs == timeoutUs
      ensures Valid() && table == NO_PACKETS && partials == map[]
    {
      this.maxPacketBytes, this.timeoutUs := maxPacketBytes, timeoutUs;
      order, partials, table := [], map[], NO_PACKETS;
    }

    method Delete(key: Key)
      requires Valid()
      modifies this
      ensures Valid() && table == old(table).Remove(key)
      ensures partials == old(partials) - {key} && partials.Values <= old(partials.Values)
    {
      order := Without(order, {key});
      partials := partials - {key};
      table := table.Remove(key);
    }

    /** Remove the stale packets, in the order in which their keys were first used. */
    method Expire(now: int) returns (events: seq<Event>)
      requires Valid()
      modifies this
      ensures Valid() && partials.Values <= old(partials.Values)
      ensures Outcome(table, events) == Reassembly.Expire(timeoutUs, old(table), now)
    {
      hide ExpiredUpTo, Dict.Valid, Dict.Remove, Stale;
      events := [];
      var keys := order;
      ghost var before := table;
      StartExpiry(timeoutUs, before, now);
      for i := 0 to |keys|
        invariant Valid() && partials.Values <= old(partials.Values)
        invariant Outcome(table, events) == ExpiredUpTo(timeoutUs, before, now, i)
      {
        var key := keys[i];
        NotYetExpired(timeoutUs, before, now, i);
        StepExpiry(timeoutUs, before, now, i);
        var partial := partials[key];
        if now - partial.lastUsed > timeoutUs {
          Delete(key);
          events := events + [Dropped(partial.lastUsed + timeoutUs, None, Timeout,
                                      Some(partial.canFields.sender), Some(partial.canFields.destination), None)];
        }
      }
      AllExpired(timeoutUs, before, now);
    }

    /** Put a packet in progress under `key`. */
    method Store(key: Key, partial: PartialPacket)
      requires Valid() && partial !in partials.Values
      modifies this
      ensures Valid() && table == old(table).Put(key, partial.View())
      ensures partials == old(partials)[key := partial] && partials.Values <= old(partials.Values) + {partial}
    {
      hide Dict.Valid, Dict.Put, PartialPacket.View, Distinct;
      PutParts(table, key, partial.View());
      PutKeepsDistinct(partials, key, partial);
      if key !in partials {
        order := order + [key];
      }
      partials := partials[key := partial];
      table := table.Put(key, partial.View());
    }

    /** Record in the table that the packet of `key` changed in place. */
    ghost method Track(key: Key, partial: PartialPacket)
      requires table.Valid() && table.keys == order && table.items.Keys == partials.Keys
      requires key in partials && partials[key] == partial
      requires forall k :: k in partials && k != key ==> partials[k].View() == table.items[k]
      requires Distinct(partials)
      modifies this`table
      ensures Valid() && table == old(table).Put(key, partial.View())
    {
      hide Dict.Valid, Dict.Put, PartialPacket.View;
      PutParts(table, key, partial.View());
      table := table.Put(key, partial.View());
    }

    /** Add a chunk to the packet of `key`, and finish the packet if this is its end. */
    method Extend(key: Key, frame: CanFrame, chunk: bytes, now: int) returns (events: seq<Event>)
      requires Valid() && key in partials
      modifies this, partials[key]
      ensures Valid() && partials.Values <= old(partials.Values)
      ensures var s := Reassembly.Extend(maxPacketBytes, old(table).items[key], frame, chunk, now);
        events == s.events && table == old(table).Set(key, s.entry)
    {
      hide UnpackCanId, Finish, DropOf, Without, Distinct;
      OthersDiffer(partials, key);
      var canFields := UnpackCanId(frame.canId);
      var partial := partials[key];
      if maxPacketBytes.Some? && |partial.payload| + |chunk| > maxPacketBytes.value {
        Delete(key);
        return [DropOf(Overflow, frame, now, maxPacketBytes)];
      }
      partial.Collect(frame, chunk);
      Track(key, partial);
      if !canFields.end {
        return [Pending(now, frame, canFields.sender, canFields.destination)];
      }
      PutThenSet(old(table), key, partial.View(), None);
      Delete(key);
      events := [Finish(partial.View(), frame, now)];
    }

    lemma TableIsValid()
      requires Valid()
      ensures table.Valid()
    {
    }

    /** Start a packet under `key`, replacing any packet in progress. */
    method Begin(key: Key, frame: CanFrame, now: int) returns (events: seq<Event>)
      requires Valid()
      modifies this
      ensures Valid() && fresh(partials.Values - old(partials.Values))
      ensures var s := Reassembly.Begin(maxPacketBytes, frame, now);
        events == s.events && table == old(table).Set(key, s.entry)
    {
      hide UnpackCanId, ExtensionOf, Reassembly.Extend, DropOf, Without, Valid;
      TableIsValid();
      if |frame.data| < HEADER_EXTENSION_BYTES {
        Delete(key);
        return [DropOf(Malformed, frame, now, None)];
      }
      var partial := new PartialPacket(UnpackCanId(frame.canId), ExtensionOf(frame), now);
      ghost var started := partial.View();
      Store(key, partial);
      events := Extend(key, frame, frame.data[HEADER_EXTENSION_BYTES..], now);
      PutThenSet(old(table), key, started, Reassembly.Begin(maxPacketBytes, frame, now).entry);
    }

    /** Add a frame to the packet in progress under `key`, if it is the next one. */
    method Continue(key: Key, frame: CanFrame, now: int) returns (events: seq<Event>)
      requires Valid() && key in partials && !UnpackCanId(frame.canId).begin
      modifies this, partials[key]
      ensures Valid() && partials.Values <= old(partials.Values)
      ensures var s := StepEntry(maxPacketBytes, Some(old(table).items[key]), frame, now);
        events == s.events && table == old(table).Set(key, s.entry)
    {
      hide UnpackCanId, Reassembly.Extend, DropOf, Without, Distinct;
      OthersDiffer(partials, key);
      var partial := partials[key];
      partial.lastUsed := now;
      if UnpackCanId(frame.canId).frameCount != partial.nextFrameCount {
        Track(key, partial);
        PutThenSet(old(table), key, partial.View(), None);
        Delete(key);
        return [DropOf(FrameLost, frame, now, None)];
      }
      partial.nextFrameCount := partial.nextFrameCount + 1;
      ghost var counted := partial.View();
      Track(key, partial);
      events := Extend(key, frame, frame.data, now);
      PutThenSet(old(table), key, counted, StepEntry(maxPacketBytes, Some(old(table).items[key]), frame, now).entry);
    }

    /** Feed one frame to the packet of its key, which it may open, continue or end. */
    method Feed(frame: CanFrame, now: int) returns (events: seq<Event>)
      requires Valid()
      modifies this, partials.Values
      ensures Valid() && fresh(partials.Values - old(partials.Values))
      ensures Outcome(table, events) == Reassembly.Feed(Cfg(), old(table), frame, now)
    {
      hide UnpackCanId, Reassembly.Begin, Reassembly.Extend, Reassembly.Expire, DropOf, Without, Distinct;
      if !frame.isExtendedId {
        return [Dropped(now, Some(frame), Malformed, None, None, None)];
      }
      var canFields := UnpackCanId(frame.canId);
      var key := KeyOf(canFields);
      if key !in partials && !canFields.begin {
        RemoveAbsent(table, key);
        return [DropOf(OrphanFragment, frame, now, None)];
      }
      if canFields.begin {
        events := [];
        if key !in partials {
          events := Expire(now);
        } else {
          events := [DropOf(Restarted, frame, now, None)];
        }
        var outcome := Begin(key, frame, now);
        events := events + outcome;
      } else {
        events := Continue(key, frame, now);
      }
    }
  }

  /** The sending side of a node: one packet counter per sender. */
  class CspFragmenter {
    const maxPacketBytes: nat
    var packetCounts: Counters

    constructor (maxPacketBytes: nat)
      ensures this.maxPacketBytes == maxPacketBytes && packetCounts == map[]
    {
      this.maxPacketBytes := maxPacketBytes;
      packetCounts := map[];
    }

    /** Fragment a packet and advance its sender's counter; a refused packet changes nothing. */
    method Fragment(q: Request) returns (r: Result<seq<CanFrame>, CspError>)
      modifies this
      ensures packetCounts == CountersAfter(maxPacketBytes, old(packetCounts), q)
      ensures r.Ok? <==> |q.payload| <= maxPacketBytes && q.fields.flags & 0x10 == 0
      ensures r == Err(OverSenderLimit) <==> |q.payload| > maxPacketBytes
      ensures match Refusal(maxPacketBytes, q)
        case Some(error) => r == Err(error)
        case None =>
          var p := PacketFor(old(packetCounts), q);
          r == Ok(Fragments(p.fields, p.payload, p.sender, p.packetCount))
    {
      hide HasFragmentFlag, Fragments, SenderOf;
      RefusalIsExact(maxPacketBytes, q);
      if |q.payload| > maxPacketBytes {
        return Err(OverSenderLimit);
      }
      var sender := SenderOf(q.fields, q.sender);
      var count := CounterOf(packetCounts, sender);
      SenderGiven(q.fields, sender);
      r := FragmentPacket(q.fields, q.payload, Some(sender), count);
      if r.Ok? {
        packetCounts := packetCounts[SenderId(sender) := count + 1];
      }
    }
  }

  lemma SenderGiven(fields: CspFields, sender: bv6)
    ensures SenderOf(fields, Some(sender)) == sender
  {
  }

  lemma RemoveAbsent(t: Table, key: Key)
    requires t.Valid() && key !in t.items
    ensures t.Remove(key) == t
  {
    WithoutNothing(t.keys, {key});
    assert t.items - {key} == t.items;
  }
}
