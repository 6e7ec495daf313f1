/** The in-process broadcast bus: one monitor stream and one stream per connected
    endpoint, with the history that says what each stream delivers. */
module InMemoryBus {
  import opened Common

  type EndpointId = nat

  datatype Envelope<F> = Envelope(frame: F, sequence: nat, source: Option<EndpointId>)

  datatype BusError = AlreadyConnected | NotConnected

  /** The envelopes not sent by `endpoint` itself. */
  function Heard<F>(endpoint: EndpointId, sent: seq<Envelope<F>>): seq<Envelope<F>> {
    if sent == [] then []
    else
      var last := sent[|sent| - 1];
      Heard(endpoint, sent[..|sent| - 1]) + if last.source == Some(endpoint) then [] else [last]
  }

  lemma HeardSnoc<F>(endpoint: EndpointId, sent: seq<Envelope<F>>, e: Envelope<F>)
    ensures Heard(endpoint, sent + [e]) == Heard(endpoint, sent) + if e.source == Some(endpoint) then [] else [e]
  {
    assert (sent + [e])[..|sent|] == sent;
  }

  /** What was taken off a stream and what is still on it are, together, what its
      endpoint has heard since it connected. */
  ghost predicate StreamOk<F>(
    e: EndpointId, joined: nat, taken: seq<Envelope<F>>, queue: seq<Envelope<F>>, sent: seq<Envelope<F>>)
  {
    joined <= |sent| && taken + queue == Heard(e, sent[joined..])
  }

  /** What a send adds to the stream of `e`. */
  function Added<F>(e: EndpointId, envelope: Envelope<F>): seq<Envelope<F>> {
    if envelope.source == Some(e) then [] else [envelope]
  }

  lemma StreamAfterSend<F>(
    e: EndpointId, joined: nat, taken: seq<Envelope<F>>, queue: seq<Envelope<F>>, sent: seq<Envelope<F>>, envelope: Envelope<F>)
    requires StreamOk(e, joined, taken, queue, sent)
    ensures StreamOk(e, joined, taken, queue + Added(e, envelope), sent + [envelope])
  {
    assert (sent + [envelope])[joined..] == sent[joined..] + [envelope];
    HeardSnoc(e, sent[joined..], envelope);
    assert taken + (queue + Added(e, envelope)) == (taken + queue) + Added(e, envelope);
  }

  lemma StreamAfterTake<F>(
    e: EndpointId, joined: nat, taken: seq<Envelope<F>>, queue: seq<Envelope<F>>, sent: seq<Envelope<F>>)
    requires StreamOk(e, joined, taken, queue, sent) && queue != []
    ensures StreamOk(e, joined, taken + [queue[0]], queue[1..], sent)
  {
    assert (taken + [queue[0]]) + queue[1..] == taken + queue;
  }

  lemma StreamAtStart<F>(e: EndpointId, sent: seq<Envelope<F>>)
    ensures StreamOk(e, |sent|, [], [], sent)
  {
  }

  class InMemoryBusAdapter<F> {
    var monitorQueue: seq<Envelope<F>>
    var endpointQueues: map<EndpointId, seq<Envelope<F>>>
    var nextSequence: nat

    /** Everything ever sent. */
    ghost var sent: seq<Envelope<F>>
    /** What has been taken off the monitor stream and off each endpoint's stream. */
    ghost var monitorTaken: seq<Envelope<F>>
    ghost var taken: map<EndpointId, seq<Envelope<F>>>
    /** How much had been sent when each endpoint connected. */
    ghost var joinedAt: map<EndpointId, nat>

    /** The monitor sees every frame in send order; an endpoint sees, in send order,
        the frames sent after it connected by anyone else. */
    ghost predicate Valid()
      reads this
    {
      && nextSequence == |sent| && (forall i :: 0 <= i < |sent| ==> sent[i].sequence == i)
      && monitorTaken + monitorQueue == sent
      && taken.Keys == joinedAt.Keys == endpointQueues.Keys
      && forall e :: e in endpointQueues ==> StreamOk(e, joinedAt[e], taken[e], endpointQueues[e], sent)
    }

    constructor ()
      ensures Valid() && sent == [] && monitorQueue == [] && endpointQueues == map[]
    {
      monitorQueue, endpointQueues, nextSequence := [], map[], 0;
      sent, monitorTaken, taken, joinedAt := [], [], map[], map[];
    }

    method Connect(endpoint: EndpointId) returns (r: Result<(), BusError>)
      requires Valid()
      modifies this
      ensures Valid() && sent == old(sent) && monitorQueue == old(monitorQueue)
      ensures r == if endpoint in old(endpointQueues) then Err(AlreadyConnected) else Ok(())
      ensures endpointQueues == if r.Ok? then old(endpointQueues)[endpoint := []] else old(endpointQueues)
      ensures taken == if r.Ok? then old(taken)[endpoint := []] else old(taken)
      ensures joinedAt == if r.Ok? then old(joinedAt)[endpoint := |sent|] else old(joinedAt)
      ensures monitorTaken == old(monitorTaken)
    {
      hide StreamOk;
      StreamAtStart(endpoint, sent);
      if endpoint in endpointQueues {
        return Err(AlreadyConnected);
      }
      endpointQueues := endpointQueues[endpoint := []];
      taken, joinedAt := taken[endpoint := []], joinedAt[endpoint := |sent|];
      r := Ok(());
    }

    method Disconnect(endpoint: EndpointId) returns (r: Result<(), BusError>)
      requires Valid()
      modifies this
      ensures Valid() && sent == old(sent) && monitorQueue == old(monitorQueue)
      ensures r == if endpoint in old(endpointQueues) then Ok(()) else Err(NotConnected)
      ensures endpointQueues == old(endpointQueues) - {endpoint}
      ensures taken == old(taken) - {endpoint} && joinedAt == old(joinedAt) - {endpoint}
      ensures monitorTaken == old(monitorTaken)
    {
      hide StreamOk;
      if endpoint !in endpointQueues {
        assert endpointQueues - {endpoint} == endpointQueues;
        assert taken - {endpoint} == taken && joinedAt - {endpoint} == joinedAt;
        return Err(NotConnected);
      }
      endpointQueues := endpointQueues - {endpoint};
      taken, joinedAt := taken - {endpoint}, joinedAt - {endpoint};
      r := Ok(());
    }

    /** Broadcast one frame to every stream but the sender's own. */
    method Send(frame: F, source: Option<EndpointId>) returns (envelope: Envelope<F>)
      requires Valid()
      modifies this
      ensures Valid() && envelope == Envelope(frame, old(nextSequence), source)
      ensures sent == old(sent) + [envelope] && monitorQueue == old(monitorQueue) + [envelope]
      ensures monitorTaken == old(monitorTaken) && taken == old(taken) && joinedAt == old(joinedAt)
      ensures endpointQueues == map e | e in old(endpointQueues) ::
        old(endpointQueues)[e] + if source == Some(e) then [] else [envelope]
    {
      hide StreamOk;
      envelope := Envelope(frame, nextSequence, source);
      nextSequence := nextSequence + 1;
      monitorQueue := monitorQueue + [envelope];
      forall e | e in endpointQueues
        ensures StreamOk(e, joinedAt[e], taken[e], endpointQueues[e] + Added(e, envelope), sent + [envelope])
      {
        StreamAfterSend(e, joinedAt[e], taken[e], endpointQueues[e], sent, envelope);
      }
      endpointQueues := map e | e in endpointQueues :: endpointQueues[e] + Added(e, envelope);
      sent := sent + [envelope];
    }

    /** Take the next envelope off the monitor stream, if there is one. */
    method Receive() returns (envelope: Option<Envelope<F>>)
      requires Valid()
      modifies this
      ensures Valid() && sent == old(sent) && endpointQueues == old(endpointQueues)
      ensures taken == old(taken) && joinedAt == old(joinedAt)
      ensures if old(monitorQueue) == [] then envelope == None && monitorQueue == [] && monitorTaken == old(monitorTaken)
              else && envelope == Some(old(monitorQueue)[0]) && monitorQueue == old(monitorQueue)[1..]
                   && monitorTaken == old(monitorTaken) + [old(monitorQueue)[0]]
    {
      hide StreamOk;
      if monitorQueue == [] {
        return None;
      }
      envelope := Some(monitorQueue[0]);
      monitorTaken := monitorTaken + [monitorQueue[0]];
      monitorQueue := monitorQueue[1..];
    }

    /** Take the next envelope off an endpoint's stream, if there is one. */
    method ReceiveAt(endpoint: EndpointId) returns (r: Result<Option<Envelope<F>>, BusError>)
      requires Valid()
      modifies this
      ensures Valid() && sent == old(sent) && monitorQueue == old(monitorQueue)
      ensures monitorTaken == old(monitorTaken) && joinedAt == old(joinedAt)
      ensures if endpoint !in old(endpointQueues)
              then r == Err(NotConnected) && endpointQueues == old(endpointQueues) && taken == old(taken)
              else var queue := old(endpointQueues)[endpoint];
                if queue == [] then r == Ok(None) && endpointQueues == old(endpointQueues) && taken == old(taken)
                else && r == Ok(Some(queue[0])) && endpointQueues == old(endpointQueues)[endpoint := queue[1..]]
                     && endpoint in old(taken) && taken == old(taken)[endpoint := old(taken)[endpoint] + [queue[0]]]
    {
      hide StreamOk;
      if endpoint !in endpointQueues {
        return Err(NotConnected);
      }
      var queue := endpointQueues[endpoint];
      if queue == [] {
        return Ok(None);
      }
      StreamAfterTake(endpoint, joinedAt[endpoint], taken[endpoint], queue, sent);
      taken := taken[endpoint := taken[endpoint] + [queue[0]]];
      endpointQueues := endpointQueues[endpoint := queue[1..]];
      r := Ok(Some(queue[0]));
    }

    /** Take everything on the monitor stream, in order. */
    method Drain() returns (envelopes: seq<Envelope<F>>)
      requires Valid()
      modifies this
      ensures Valid() && sent == old(sent) && endpointQueues == old(endpointQueues)
      ensures taken == old(taken) && joinedAt == old(joinedAt)
      ensures envelopes == old(monitorQueue) && monitorQueue == [] && monitorTaken == old(monitorTaken) + envelopes
    {
      hide StreamOk;
      envelopes := [];
      while true
        invariant Valid() && sent == old(sent) && endpointQueues == old(endpointQueues)
        invariant taken == old(taken) && joinedAt == old(joinedAt)
        invariant envelopes + monitorQueue == old(monitorQueue) && monitorTaken == old(monitorTaken) + envelopes
        decreases |monitorQueue|
      {
        var envelope := Receive();
        if envelope.None? {
          return;
        }
        envelopes := envelopes + [envelope.value];
      }
    }
  }
}
