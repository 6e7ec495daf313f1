/** What happens to one packet when only some of its frames arrive. */
module Loss {
  import opened Common
  import opened CspV2
  import opened Reassembly

  /** A packet as it is sent. */
  datatype Packet = Packet(fields: CspFields, payload: bytes, sender: bv6, packetCount: bv2) {

    function Total(): (n: nat)
      ensures n >= 1
    {
      FrameTotal(|payload|)
    }

    function Frame(i: nat): CanFrame
      requires i < Total()
    {
      Fragment(fields, payload, sender, packetCount, i)
    }

    function PacketKey(): Key {
      Key(fields.priority, fields.destination, sender, packetCount)
    }
  }

  /** `indices` are the frames that arrive: in order, each at most once. */
  ghost predicate Delivered(p: Packet, indices: seq<nat>, arrivals: seq<Arrival>) {
    && |arrivals| == |indices|
    && (forall i, j :: 0 <= i < j < |indices| ==> indices[i] < indices[j])
    && (forall j :: 0 <= j < |indices| ==> indices[j] < p.Total() && arrivals[j].frame == p.Frame(indices[j]))
  }

  /** The payload bytes of the delivered frames, in order. */
  function DeliveredPayload(p: Packet, indices: seq<nat>): bytes {
    if indices == [] then []
    else DeliveredPayload(p, indices[..|indices| - 1]) + Chunk(p.payload, indices[|indices| - 1])
  }

  function FramesOf(arrivals: seq<Arrival>): (frames: seq<CanFrame>)
    ensures |frames| == |arrivals|
    ensures forall i :: 0 <= i < |frames| ==> frames[i] == arrivals[i].frame
  {
    seq(|arrivals|, i requires 0 <= i < |arrivals| => arrivals[i].frame)
  }

  /** `b` is 1 more than `a`, modulo 8. */
  predicate Follows(a: int, b: int) {
    (b - a) % 8 == 1
  }

  /** The first frame arrives, and each delivered index follows the one before it. */
  ghost predicate StepsModulo8(indices: seq<nat>) {
    && (indices != [] ==> indices[0] == 0)
    && forall j :: 0 < j < |indices| ==> Follows(indices[j - 1], indices[j])
  }

  function PendingOf(p: Packet, a: Arrival): Event {
    Pending(a.now, a.frame, p.sender, p.fields.destination)
  }

  function PendingsOf(p: Packet, arrivals: seq<Arrival>): seq<Event> {
    seq(|arrivals|, i requires 0 <= i < |arrivals| => PendingOf(p, arrivals[i]))
  }

  /** The event that completes `p` with `payload`, collected from `arrivals`. */
  function CompletionOf(p: Packet, payload: bytes, arrivals: seq<Arrival>): Event
    requires arrivals != []
  {
    var last := arrivals[|arrivals| - 1];
    Complete(last.now, last.frame,
             DecodedPacket(p.fields, payload, p.Frame(0), UnpackCanId(p.Frame(0).canId), FramesOf(arrivals)),
             p.sender, p.fields.destination)
  }

  ghost predicate HasCompletion(events: seq<Event>) {
    exists i :: 0 <= i < |events| && events[i].Complete?
  }

  /** The packet held after `arrivals`, all of them accepted. */
  function HeldAfter(p: Packet, payload: bytes, arrivals: seq<Arrival>): Partial
    requires arrivals != []
  {
    Partial(UnpackCanId(p.Frame(0).canId), PackHeaderExtension(p.fields), FramesOf(arrivals),
            payload, FrameCounter(|arrivals|), arrivals[|arrivals| - 1].now)
  }

  /** Whether the arrivals so far look, to the receiver, like an unbroken packet
      that fits. */
  ghost predicate Intact(limit: Option<nat>, p: Packet, indices: seq<nat>) {
    StepsModulo8(indices) && Fits(limit, |DeliveredPayload(p, indices)|)
  }

  lemma FollowsPosition(a: nat, b: nat, j: nat)
    requires j > 0 && a % 8 == (j - 1) % 8
    ensures Follows(a, b) <==> b % 8 == j % 8
  {
    var x, y, z := a / 8, b / 8, (j - 1) / 8;
    assert a == 8 * x + a % 8 && b == 8 * y + b % 8 && j - 1 == 8 * z + a % 8;
  }

  /** A delivered frame is in step exactly when its position has its counter. */
  lemma {:induction false} StepsArePositions(indices: seq<nat>)
    ensures StepsModulo8(indices) <==>
      (indices != [] ==> indices[0] == 0) && forall j :: 0 <= j < |indices| ==> indices[j] % 8 == j % 8
  {
    if |indices| > 1 {
      var n := |indices| - 1;
      var init := indices[..n];
      StepsArePositions(init);
      assert indices == init + [indices[n]];
      assert init[0] == indices[0] && init[n - 1] == indices[n - 1];
      if StepsModulo8(init) {
        FollowsPosition(indices[n - 1], indices[n], n);
      }
      hide Follows;
    }
  }

  lemma StepsPrefix(p: Packet, limit: Option<nat>, indices: seq<nat>)
    requires indices != []
    ensures var n := |indices| - 1;
      Intact(limit, p, indices) <==>
        && Intact(limit, p, indices[..n])
        && indices[n] % 8 == n % 8 && (n == 0 ==> indices[0] == 0)
        && Fits(limit, |DeliveredPayload(p, indices)|)
    ensures Intact(limit, p, indices) ==> indices[0] == 0
    ensures |indices| == 1 ==> Intact(limit, p, indices[..0])
    ensures |indices| > 1 && Intact(limit, p, indices[..|indices| - 1]) ==> indices[0] == 0
  {
    hide StepsModulo8;
    StepsArePositions(indices);
    StepsArePositions(indices[..|indices| - 1]);
  }

  /** What one more frame of the packet does. */
  lemma StepOnFragment(limit: Option<nat>, p: Packet, i: nat, entry: Option<Partial>, now: int)
    requires i < p.Total() && !HasFragmentFlag(p.fields)
    ensures var f := p.Frame(i); var s := StepEntry(limit, entry, f, now);
      if i == 0 then entry.None? ==>
        s == Extend(limit, Partial(UnpackCanId(f.canId), PackHeaderExtension(p.fields), [], [], 1, now),
                    f, Chunk(p.payload, 0), now)
      else if entry.None? then s == Step(None, [DropOf(OrphanFragment, f, now, None)])
      else if FrameCounter(i) != entry.value.nextFrameCount then s == Step(None, [DropOf(FrameLost, f, now, None)])
      else s == Extend(limit, entry.value.(nextFrameCount := entry.value.nextFrameCount + 1, lastUsed := now),
                       f, Chunk(p.payload, i), now)
  {
    hide UnpackCanId, PackCanId, PackHeaderExtension, ExtensionOf, Fragment, FrameCounter, Extend;
  }

  /** The packet held before `arrivals[n]`, if the first `n` were accepted. */
  function HeldBefore(p: Packet, payload: bytes, arrivals: seq<Arrival>, n: nat): Option<Partial>
    requires n <= |arrivals|
  {
    if n == 0 then None else Some(HeldAfter(p, payload, arrivals[..n]))
  }

  /** The frame the receiver expects, frame `i`, arrives. */
  lemma ExpectedFrame(limit: Option<nat>, p: Packet, payload: bytes, arrivals: seq<Arrival>, i: nat)
    requires !HasFragmentFlag(p.fields) && i < p.Total() && arrivals != []
    requires var n := |arrivals| - 1;
      i % 8 == n % 8 && (n == 0 <==> i == 0) && (n == 0 ==> payload == []) && arrivals[n].frame == p.Frame(i)
      && arrivals[0].frame == p.Frame(0)
    ensures var n := |arrivals| - 1; var a := arrivals[n]; var longer := payload + Chunk(p.payload, i);
      StepEntry(limit, HeldBefore(p, payload, arrivals, n), a.frame, a.now)
      == if !Fits(limit, |longer|) then Step(None, [DropOf(Overflow, a.frame, a.now, limit)])
         else if i < p.Total() - 1 then Step(Some(HeldAfter(p, longer, arrivals)), [PendingOf(p, a)])
         else Step(None, [CompletionOf(p, longer, arrivals)])
  {
    hide PackCanId, PackHeaderExtension, ExtensionOf, Fragment, FrameCounter, UnpackCanId, UnpackHeaderExtension,
      StepEntry, HasFragmentFlag, FramesOf, Chunk;
    var n := |arrivals| - 1;
    var a := arrivals[n];
    var q := if n == 0 then Partial(UnpackCanId(p.Frame(0).canId), PackHeaderExtension(p.fields), [], [], 1, a.now)
             else HeldAfter(p, payload, arrivals[..n]).(nextFrameCount := FrameCounter(n) + 1, lastUsed := a.now);
    StepOnFragment(limit, p, i, HeldBefore(p, payload, arrivals, n), a.now);
    HeaderExtensionBijection(PackHeaderExtension(p.fields), p.fields);
    FrameCounterAgree(i, n);
    FrameCounterStep(n);
    assert FramesOf(arrivals) == FramesOf(arrivals[..n]) + [a.frame];
    assert [] + Chunk(p.payload, 0) == Chunk(p.payload, 0);
    assert StepEntry(limit, HeldBefore(p, payload, arrivals, n), a.frame, a.now)
      == Extend(limit, q, a.frame, Chunk(p.payload, i), a.now);
    assert q.frames + [a.frame] == FramesOf(arrivals);
  }

  /** A frame the receiver does not expect completes nothing. */
  lemma UnexpectedFrame(limit: Option<nat>, p: Packet, entry: Option<Partial>, i: nat, now: int)
    requires !HasFragmentFlag(p.fields) && 0 < i < p.Total()
    requires entry.Some? ==> entry.value.nextFrameCount != FrameCounter(i)
    ensures var s := StepEntry(limit, entry, p.Frame(i), now);
      s.entry == None && |s.events| == 1 && s.events[0].Dropped?
  {
    hide StepEntry, FrameCounter, UnpackCanId, Extend;
    StepOnFragment(limit, p, i, entry, now);
  }

  /** What a run over all frames but the last has left. */
  ghost predicate StateAfter(limit: Option<nat>, p: Packet, indices: seq<nat>, arrivals: seq<Arrival>, r: Step)
    requires |arrivals| == |indices|
  {
    if indices == [] then r == Step(None, [])
    else if Intact(limit, p, indices) then
      r == Step(Some(HeldAfter(p, DeliveredPayload(p, indices), arrivals)), PendingsOf(p, arrivals))
    else r.entry == None && !HasCompletion(r.events)
  }

  lemma NoPendings(p: Packet, arrivals: seq<Arrival>)
    requires arrivals == []
    ensures PendingsOf(p, arrivals) == []
  {
  }

  /** The next delivered frame keeps the packet intact, or completes it. */
  lemma FrameInStep(limit: Option<nat>, p: Packet, indices: seq<nat>, arrivals: seq<Arrival>, r: Step)
    requires !HasFragmentFlag(p.fields) && Delivered(p, indices, arrivals) && Intact(limit, p, indices) && indices != []
    requires StateAfter(limit, p, indices[..|indices| - 1], arrivals[..|indices| - 1], r)
    ensures var n := |indices| - 1; var a := arrivals[n];
      && r.events == PendingsOf(p, arrivals[..n])
      && StepEntry(limit, r.entry, a.frame, a.now)
         == if indices[n] < p.Total() - 1
            then Step(Some(HeldAfter(p, DeliveredPayload(p, indices), arrivals)), [PendingOf(p, a)])
            else Step(None, [CompletionOf(p, DeliveredPayload(p, indices), arrivals)])
  {
    hide StepEntry, FrameCounter, UnpackCanId, HeldAfter, Chunk, CompletionOf, Fragment, StepsModulo8, HasFragmentFlag, PendingsOf;
    var n := |indices| - 1;
    StepsPrefix(p, limit, indices);
    NoPendings(p, arrivals[..0]);
    ExpectedFrame(limit, p, DeliveredPayload(p, indices[..n]), arrivals, indices[n]);
  }

  /** The next delivered frame is out of step, or too much. */
  lemma FrameOutOfStep(limit: Option<nat>, p: Packet, indices: seq<nat>, arrivals: seq<Arrival>, r: Step)
    requires !HasFragmentFlag(p.fields) && Delivered(p, indices, arrivals) && !Intact(limit, p, indices) && indices != []
    requires StateAfter(limit, p, indices[..|indices| - 1], arrivals[..|indices| - 1], r)
    ensures var a := arrivals[|indices| - 1];
      var s := StepEntry(limit, r.entry, a.frame, a.now);
      s.entry == None && |s.events| == 1 && s.events[0].Dropped?
  {
    hide StepEntry, FrameCounter, UnpackCanId, HeldAfter, Chunk, Fragment, StepsModulo8, HasFragmentFlag, PendingsOf;
    var n := |indices| - 1;
    var a, i := arrivals[n], indices[n];
    StepsPrefix(p, limit, indices);
    NoPendings(p, arrivals[..0]);
    if i == 0 || (n > 0 && Intact(limit, p, indices[..n]) && i % 8 == n % 8) {
      ExpectedFrame(limit, p, DeliveredPayload(p, indices[..n]), arrivals, i);
    } else if n == 0 || !Intact(limit, p, indices[..n]) {
      UnexpectedFrame(limit, p, r.entry, i, a.now);
    } else {
      UnexpectedHeld(limit, p, DeliveredPayload(p, indices[..n]), arrivals, i);
    }
  }

  lemma UnexpectedHeld(limit: Option<nat>, p: Packet, payload: bytes, arrivals: seq<Arrival>, i: nat)
    requires !HasFragmentFlag(p.fields) && |arrivals| > 1 && 0 < i < p.Total()
    requires i % 8 != (|arrivals| - 1) % 8
    ensures var n := |arrivals| - 1;
      var s := StepEntry(limit, HeldBefore(p, payload, arrivals, n), p.Frame(i), arrivals[n].now);
      s.entry == None && |s.events| == 1 && s.events[0].Dropped?
  {
    hide FrameCounter, StepEntry;
    FrameCounterAgree(i, |arrivals| - 1);
    UnexpectedFrame(limit, p, HeldBefore(p, payload, arrivals, |arrivals| - 1), i, arrivals[|arrivals| - 1].now);
  }

  /** The state after any delivered frames before the last frame of the packet. */
  lemma {:induction false} StateBeforeEnd(limit: Option<nat>, p: Packet, indices: seq<nat>, arrivals: seq<Arrival>)
    requires !HasFragmentFlag(p.fields) && Delivered(p, indices, arrivals)
    requires indices != [] ==> indices[|indices| - 1] < p.Total() - 1
    ensures StateAfter(limit, p, indices, arrivals, RunEntry(limit, None, arrivals))
  {
    hide StepEntry, HeldAfter, Intact, PendingsOf, HasFragmentFlag, Fragment, RunEntry, DeliveredPayload, HasCompletion;
    if indices == [] {
      RunEntryNone(limit, None);
    } else {
      var n := |indices| - 1;
      StateBeforeEnd(limit, p, indices[..n], arrivals[..n]);
      var r := RunEntry(limit, None, arrivals[..n]);
      RunEntrySnoc(limit, None, arrivals[..n], arrivals[n]);
      assert arrivals == arrivals[..n] + [arrivals[n]];
      if Intact(limit, p, indices) {
        PendingsSnoc(p, arrivals);
        FrameInStep(limit, p, indices, arrivals, r);
      } else {
        StateHasNoCompletion(limit, p, indices[..n], arrivals[..n], r);
        FrameOutOfStep(limit, p, indices, arrivals, r);
        DropCompletesNothing(r.events, StepEntry(limit, r.entry, arrivals[n].frame, arrivals[n].now).events);
      }
    }
  }

  lemma PendingsSnoc(p: Packet, arrivals: seq<Arrival>)
    requires arrivals != []
    ensures var n := |arrivals| - 1;
      PendingsOf(p, arrivals) == PendingsOf(p, arrivals[..n]) + [PendingOf(p, arrivals[n])]
  {
  }

  /** A packet of which only some frames arrive, under a key with nothing in
      progress, completes exactly when its first and last frames arrive, each
      delivered index is one more than the last modulo 8, and what was delivered
      fits. It then completes with exactly the delivered bytes. */
  lemma LossCharacterisation(limit: Option<nat>, p: Packet, indices: seq<nat>, arrivals: seq<Arrival>)
    requires !HasFragmentFlag(p.fields) && Delivered(p, indices, arrivals)
    ensures var r := RunEntry(limit, None, arrivals);
      && (HasCompletion(r.events) <==>
            indices != [] && indices[|indices| - 1] == p.Total() - 1 && Intact(limit, p, indices))
      && (HasCompletion(r.events) ==>
            r == Step(None, PendingsOf(p, arrivals[..|arrivals| - 1])
                            + [CompletionOf(p, DeliveredPayload(p, indices), arrivals)]))
  {
    hide StepEntry, HeldAfter, Intact, PendingsOf, HasFragmentFlag, CompletionOf, Fragment, RunEntry, DeliveredPayload,
      HasCompletion;
    if indices == [] || indices[|indices| - 1] < p.Total() - 1 {
      StateBeforeEnd(limit, p, indices, arrivals);
      StateHasNoCompletion(limit, p, indices, arrivals, RunEntry(limit, None, arrivals));
    } else {
      var n := |indices| - 1;
      var r := RunEntry(limit, None, arrivals[..n]);
      StateBeforeEnd(limit, p, indices[..n], arrivals[..n]);
      RunEntrySnoc(limit, None, arrivals[..n], arrivals[n]);
      assert arrivals == arrivals[..n] + [arrivals[n]];
      if Intact(limit, p, indices) {
        FrameInStep(limit, p, indices, arrivals, r);
        CompletesAtEnd(p, DeliveredPayload(p, indices), arrivals);
      } else {
        StateHasNoCompletion(limit, p, indices[..n], arrivals[..n], r);
        FrameOutOfStep(limit, p, indices, arrivals, r);
        DropCompletesNothing(r.events, StepEntry(limit, r.entry, arrivals[n].frame, arrivals[n].now).events);
      }
    }
  }

  lemma DropCompletesNothing(a: seq<Event>, b: seq<Event>)
    requires !HasCompletion(a) && |b| == 1 && b[0].Dropped?
    ensures !HasCompletion(a + b)
  {
  }

  lemma StateHasNoCompletion(limit: Option<nat>, p: Packet, indices: seq<nat>, arrivals: seq<Arrival>, r: Step)
    requires |arrivals| == |indices| && StateAfter(limit, p, indices, arrivals, r)
    ensures !HasCompletion(r.events)
  {
    hide Intact, HeldAfter;
  }

  lemma CompletesAtEnd(p: Packet, payload: bytes, arrivals: seq<Arrival>)
    requires arrivals != []
    ensures HasCompletion(PendingsOf(p, arrivals[..|arrivals| - 1]) + [CompletionOf(p, payload, arrivals)])
  {
    var events := PendingsOf(p, arrivals[..|arrivals| - 1]) + [CompletionOf(p, payload, arrivals)];
    assert events[|events| - 1].Complete?;
  }

  // ---- When a completion can be trusted ----

  lemma {:induction false} DeliveredInFull(p: Packet, indices: seq<nat>)
    requires |indices| <= p.Total()
    requires forall j :: 0 <= j < |indices| ==> indices[j] == j
    ensures DeliveredPayload(p, indices) == p.payload[..Carried(|p.payload|, |indices|)]
  {
    if indices != [] {
      DeliveredInFull(p, indices[..|indices| - 1]);
      CarriedPrefix(p.payload, |indices|);
    }
  }

  /** No eight frames in a row are lost between two that arrive. */
  ghost predicate NoEightLost(indices: seq<nat>) {
    forall j :: 0 < j < |indices| ==> indices[j] <= indices[j - 1] + 8
  }

  ghost predicate Ascending(indices: seq<nat>, total: nat) {
    && (forall i, j :: 0 <= i < j < |indices| ==> indices[i] < indices[j])
    && (forall j :: 0 <= j < |indices| ==> indices[j] < total)
  }

  lemma ChunkSize(p: Packet, i: nat)
    requires i < p.Total()
    ensures |Chunk(p.payload, i)| == Carried(|p.payload|, i + 1) - Carried(|p.payload|, i)
  {
  }

  /** Frames before another one carry something. */
  lemma CarriedGrows(p: Packet, i: nat, k: nat)
    requires i < k < p.Total()
    ensures Carried(|p.payload|, i) < Carried(|p.payload|, k)
  {
  }

  /** What arrived is no longer than the payload up to the last frame that did, and is
      shorter after any gap. */
  lemma {:induction false} DeliveredBound(p: Packet, indices: seq<nat>)
    requires indices != [] && Ascending(indices, p.Total())
    ensures var size := Carried(|p.payload|, indices[|indices| - 1] + 1);
      && |DeliveredPayload(p, indices)| <= size
      && (!NoEightLost(indices) ==> |DeliveredPayload(p, indices)| < size)
  {
    hide FrameTotal, Carried, Chunk;
    var n := |indices| - 1;
    ChunkSize(p, indices[n]);
    if n == 0 {
      assert DeliveredPayload(p, indices[..0]) == [];
      NothingCarried(|p.payload|);
    } else {
      var init := indices[..n];
      DeliveredBound(p, init);
      if indices[n - 1] + 1 < indices[n] {
        CarriedGrows(p, indices[n - 1] + 1, indices[n]);
      }
      assert forall j :: 0 <= j < n ==> init[j] == indices[j];
    }
  }

  lemma NothingCarried(n: nat)
    ensures forall i :: 0 <= Carried(n, i)
  {
  }

  lemma NextOfEight(a: nat, b: nat)
    requires Follows(a, b) && a < b <= a + 8
    ensures b == a + 1
  {
  }

  lemma {:induction false} NothingSkipped(indices: seq<nat>, total: nat)
    requires StepsModulo8(indices) && Ascending(indices, total) && NoEightLost(indices)
    ensures forall j :: 0 <= j < |indices| ==> indices[j] == j
  {
    hide Follows;
    if |indices| > 1 {
      var n := |indices| - 1;
      var init := indices[..n];
      assert forall j :: 0 <= j < n ==> init[j] == indices[j];
      NothingSkipped(init, total);
      assert init[n - 1] == n - 1;
      NextOfEight(indices[n - 1], indices[n]);
    }
  }

  /** A completion carries the original payload, and every frame of the packet, if and
      only if no eight frames in a row were lost; of a packet of at most 68 bytes (nine
      frames) so many cannot be lost between two others. */
  lemma CompletionIsWhole(limit: Option<nat>, p: Packet, indices: seq<nat>, arrivals: seq<Arrival>)
    requires !HasFragmentFlag(p.fields) && Delivered(p, indices, arrivals)
    ensures |p.payload| <= 68 ==> NoEightLost(indices)
    ensures var events := RunEntry(limit, None, arrivals).events;
      HasCompletion(events) ==>
        && events != [] && events[|events| - 1].Complete?
        && (events[|events| - 1].packet.payload == p.payload <==> NoEightLost(indices))
        && (NoEightLost(indices) ==>
              && |indices| == p.Total()
              && events == PendingsOf(p, arrivals[..|arrivals| - 1]) + [CompletionOf(p, p.payload, arrivals)])
  {
    hide RunEntry, HasCompletion, DeliveredPayload, Fragment, HasFragmentFlag, Carried, StepsModulo8;
    LossCharacterisation(limit, p, indices, arrivals);
    if HasCompletion(RunEntry(limit, None, arrivals).events) {
      CarriedPrefix(p.payload, p.Total());
      DeliveredBound(p, indices);
      if NoEightLost(indices) {
        NothingSkipped(indices, p.Total());
        DeliveredInFull(p, indices);
        assert p.payload[..|p.payload|] == p.payload;
      }
    }
  }

  /** The bound is exact: of any packet longer than 68 bytes, losing frames 1 to 8
      goes unnoticed, and a packet without those 64 bytes completes. */
  lemma EightLostFramesGoUnnoticed(p: Packet, arrivals: seq<Arrival>)
    requires !HasFragmentFlag(p.fields) && |p.payload| > 68
    requires Delivered(p, Skipping(p.Total() - 8), arrivals)
    ensures HasCompletion(RunEntry(None, None, arrivals).events)
    ensures RunEntry(None, None, arrivals).events
      == PendingsOf(p, arrivals[..|arrivals| - 1]) + [CompletionOf(p, p.payload[..4] + p.payload[68..], arrivals)]
  {
    hide Fragment, UnpackCanId, HasFragmentFlag, RunEntry, StepEntry, CompletionOf, PendingsOf, DeliveredPayload,
      Delivered, StepsModulo8, Chunk, HasCompletion;
    var indices := Skipping(p.Total() - 8);
    SkippingSteps(|indices|);
    SkippedPayload(p, indices);
    CarriedPrefix(p.payload, p.Total());
    assert p.payload[68..|p.payload|] == p.payload[68..];
    LossCharacterisation(None, p, indices, arrivals);
  }

  /** Frames 0, 9, 10, ...: the positions of `n` frames when frames 1 to 8 are lost. */
  function Skipping(n: nat): (indices: seq<nat>)
    ensures |indices| == n
    ensures forall j :: 0 <= j < n ==> indices[j] == if j == 0 then 0 else j + 8
  {
    seq(n, j => if j == 0 then 0 else j + 8)
  }

  lemma SkippingSteps(n: nat)
    ensures StepsModulo8(Skipping(n))
  {
    var indices := Skipping(n);
    forall j | 0 < j < n ensures Follows(indices[j - 1], indices[j]) {
      assert indices[j] - indices[j - 1] == if j == 1 then 9 else 1;
    }
  }

  lemma {:induction false} SkippedPayload(p: Packet, indices: seq<nat>)
    requires 1 <= |indices| <= p.Total() - 8 && |p.payload| > 68
    requires forall j :: 0 <= j < |indices| ==> indices[j] == if j == 0 then 0 else j + 8
    ensures DeliveredPayload(p, indices)
      == p.payload[..4] + p.payload[68..Carried(|p.payload|, |indices| + 8)]
  {
    var n := |indices| - 1;
    if n > 0 {
      SkippedPayload(p, indices[..n]);
      CarriedPrefix(p.payload, |indices| + 8);
    } else {
      assert DeliveredPayload(p, indices[..0]) == [];
    }
  }

  // ---- The frames of a packet ----

  lemma {:induction false} FirstFramesCarry(p: Packet, m: nat)
    requires m <= p.Total()
    ensures var frames := Fragments(p.fields, p.payload, p.sender, p.packetCount);
      PayloadOf(frames[..m]) == p.payload[..Carried(|p.payload|, m)]
  {
    hide PackHeaderExtension, UnpackCanId, ExtensionOf, FrameTotal, Carried, Chunk;
    var frames := Fragments(p.fields, p.payload, p.sender, p.packetCount);
    if m == 0 {
      NoneCarried(|p.payload|);
    } else {
      FirstFramesCarry(p, m - 1);
      CarriedPrefix(p.payload, m);
      PayloadExtends(frames[..m - 1], frames[m - 1]);
      assert frames[..m] == frames[..m - 1] + [frames[m - 1]];
    }
  }

  lemma NoneCarried(n: nat)
    ensures Carried(n, 0) == 0
  {
  }

  /** One frame: full unless it is the last, and then not empty unless it is the only one. */
  lemma FrameIsFull(p: Packet, i: nat)
    requires i < p.Total()
    ensures var f := p.Frame(i); var c := UnpackCanId(f.canId); var last := p.Total() - 1;
      && (i < last ==> |f.data| == 8) && (0 < i == last ==> 0 < |f.data| <= 8)
      && f.isExtendedId && c.priority == p.fields.priority && c.destination == p.fields.destination
      && c.sender == p.sender && c.packetCount == p.packetCount
      && c.frameCount as int == i % 8 && c.begin == (i == 0) && c.end == (i == last)
  {
    hide PackHeaderExtension, UnpackCanId, FrameCounter, ExtensionOf;
    FrameCounterIsNumber(i);
    ChunkSize(p, i);
  }

  /** A packet is cut into as few frames as carry it: every frame but the last is full, with
      eight bytes, and the last of several is not empty. The first begins with the header
      extension; together, after that, they carry the payload. They are numbered modulo 8,
      the first alone begins, and the last alone ends. */
  lemma FramesAreFull(p: Packet)
    ensures var frames := Fragments(p.fields, p.payload, p.sender, p.packetCount); var n := |frames|;
      && n > 0 && PayloadOf(frames) == p.payload
      && |frames[0].data| >= 4 && frames[0].data[..4] == ToBytes4(PackHeaderExtension(p.fields))
      && forall i :: 0 <= i < n ==> var f := frames[i]; var c := UnpackCanId(f.canId);
        && (i < n - 1 ==> |f.data| == 8) && (0 < i == n - 1 ==> 0 < |f.data| <= 8)
        && f.isExtendedId && c.priority == p.fields.priority && c.destination == p.fields.destination
        && c.sender == p.sender && c.packetCount == p.packetCount
        && c.frameCount as int == i % 8 && c.begin == (i == 0) && c.end == (i == n - 1)
  {
    hide PackHeaderExtension, UnpackCanId, FrameCounter, FrameTotal, Carried, PayloadOf, Chunk, ToBytes4, FromBytes4;
    var frames := Fragments(p.fields, p.payload, p.sender, p.packetCount);
    FirstFramesCarry(p, p.Total());
    CarriedPrefix(p.payload, p.Total());
    assert frames[..p.Total()] == frames && p.payload[..|p.payload|] == p.payload;
    Bytes4Bijection(PackHeaderExtension(p.fields), frames[0].data[..4]);
    forall i | 0 <= i < |frames| ensures frames[i] == p.Frame(i) {
      FrameIsFull(p, i);
    }
    forall i | 0 <= i < |frames| ensures var f := frames[i]; var c := UnpackCanId(f.canId);
      && (i < |frames| - 1 ==> |f.data| == 8) && (0 < i == |frames| - 1 ==> 0 < |f.data| <= 8)
      && f.isExtendedId && c.priority == p.fields.priority && c.destination == p.fields.destination
      && c.sender == p.sender && c.packetCount == p.packetCount
      && c.frameCount as int == i % 8 && c.begin == (i == 0) && c.end == (i == |frames| - 1)
    {
      FrameIsFull(p, i);
    }
  }

  // ---- All frames arrive ----

  /** The event of frame `i` when every frame arrives: the frame that outgrows the
      limit overflows, and the frames after it are orphans. */
  function EventOf(limit: Option<nat>, p: Packet, arrivals: seq<Arrival>, i: nat): Event
    requires i < |arrivals| && i < p.Total()
  {
    var a := arrivals[i];
    var n := |p.payload|;
    if !Fits(limit, Carried(n, i)) then DropOf(OrphanFragment, a.frame, a.now, None)
    else if !Fits(limit, Carried(n, i + 1)) then DropOf(Overflow, a.frame, a.now, limit)
    else if i < p.Total() - 1 then PendingOf(p, a)
    else CompletionOf(p, p.payload, arrivals[..i + 1])
  }

  function EventsOf(limit: Option<nat>, p: Packet, arrivals: seq<Arrival>): (events: seq<Event>)
    requires |arrivals| <= p.Total()
    ensures |events| == |arrivals|
    ensures forall i :: 0 <= i < |events| ==> events[i] == EventOf(limit, p, arrivals, i)
  {
    seq(|arrivals|, i requires 0 <= i < |arrivals| => EventOf(limit, p, arrivals, i))
  }

  ghost predicate InOrder(p: Packet, arrivals: seq<Arrival>) {
    |arrivals| <= p.Total() && forall i :: 0 <= i < |arrivals| ==> arrivals[i].frame == p.Frame(i)
  }

  /** The packet in progress after the first frames of `p` arrived. */
  function EntryAfter(limit: Option<nat>, p: Packet, arrivals: seq<Arrival>): Option<Partial>
    requires |arrivals| <= p.Total()
  {
    var size := Carried(|p.payload|, |arrivals|);
    if arrivals == [] || |arrivals| == p.Total() || !Fits(limit, size) then None
    else Some(HeldAfter(p, p.payload[..size], arrivals))
  }

  /** Feeding the frames of a packet in order, under a key with nothing in progress:
      all but the last are stored and the last completes the packet with its own
      fields, payload and frames, if it fits; otherwise the packet overflows once
      and its remaining frames are orphans. Nothing is left in progress. */
  lemma {:induction false} WholeDelivery(limit: Option<nat>, p: Packet, arrivals: seq<Arrival>)
    requires !HasFragmentFlag(p.fields) && InOrder(p, arrivals)
    ensures RunEntry(limit, None, arrivals) == Step(EntryAfter(limit, p, arrivals), EventsOf(limit, p, arrivals))
  {
    hide EventOf, StepEntry, Fragment, EntryAfter, RunEntry, HasFragmentFlag, EventsOf;
    if arrivals == [] {
      RunEntryNone(limit, None);
      NothingArrived(limit, p, arrivals);
    } else {
      var n := |arrivals| - 1;
      WholeDelivery(limit, p, arrivals[..n]);
      OneMoreInOrder(limit, p, arrivals);
      RunEntrySnoc(limit, None, arrivals[..n], arrivals[n]);
      assert arrivals == arrivals[..n] + [arrivals[n]];
      EventsSnoc(limit, p, arrivals);
    }
  }

  lemma NothingArrived(limit: Option<nat>, p: Packet, arrivals: seq<Arrival>)
    requires arrivals == []
    ensures EntryAfter(limit, p, arrivals) == None && EventsOf(limit, p, arrivals) == []
  {
  }

  lemma EventsSnoc(limit: Option<nat>, p: Packet, arrivals: seq<Arrival>)
    requires 0 < |arrivals| <= p.Total()
    ensures var n := |arrivals| - 1;
      EventsOf(limit, p, arrivals) == EventsOf(limit, p, arrivals[..n]) + [EventOf(limit, p, arrivals, n)]
  {
    var n := |arrivals| - 1;
    forall i | 0 <= i < n ensures EventOf(limit, p, arrivals[..n], i) == EventOf(limit, p, arrivals, i) {
      hide DropOf, CompletionOf, PendingOf;
      assert arrivals[..n][..i + 1] == arrivals[..i + 1];
    }
    hide EventOf;
  }

  lemma OneMoreInOrder(limit: Option<nat>, p: Packet, arrivals: seq<Arrival>)
    requires !HasFragmentFlag(p.fields) && InOrder(p, arrivals) && arrivals != []
    ensures var n := |arrivals| - 1; var a := arrivals[n];
      StepEntry(limit, EntryAfter(limit, p, arrivals[..n]), a.frame, a.now)
      == Step(EntryAfter(limit, p, arrivals), [EventOf(limit, p, arrivals, n)])
  {
    hide StepEntry, FrameCounter, UnpackCanId, HeldAfter, CompletionOf, Fragment, HasFragmentFlag, Chunk;
    var n := |arrivals| - 1;
    var size := Carried(|p.payload|, n);
    CarriedPrefix(p.payload, n + 1);
    assert arrivals[..n + 1] == arrivals && p.payload[..|p.payload|] == p.payload && p.payload[..0] == [];
    if Fits(limit, size) {
      ExpectedFrame(limit, p, p.payload[..size], arrivals, n);
    } else {
      StepOnFragment(limit, p, n, None, arrivals[n].now);
    }
  }
}
