# CubeSat testbed: verified model

The testbed connects the nodes of a simulated CubeSat by CSP v2 packets and runs them
under a discrete-event engine. This project models its protocol state machines, its
engine and the loops of its scenario runner, and proves what they promise.

The program's objects that change in place are classes here. Each of their methods is
proved to do what a step function says, and what the step functions guarantee over
whole runs is proved about them. The chapters, hardest first:

- **CFP2 on CAN** (`CspV2`, `Reassembly`, `Loss`, `Interleaving`, `Conservation`,
  `Outcomes`, `Reassembler`). A packet is cut into 8-byte frames with a 3-bit counter, and
  a reassembler rebuilds packets from timestamped frames. Every key (priority,
  destination, sender, 2-bit packet counter) is a small machine of its own; a table of
  machines is the reassembler. The central results: within one timeout window keys do
  not interfere, so packets interleave freely; a packet with lost frames completes
  exactly when the losses are invisible modulo 8; no frame is lost or invented; and every
  report is the one that the frames collected so far explain.
- **KISS framing and CRC-32C** (`CspV2Packet`, `Crc32c`, `Polynomials`, `Kiss`,
  `KissHistory`, `KissDecoder`). The table-driven checksum is the bit-serial one, through
  linearity of the shift, and that is the remainder of a long division of polynomials. The
  decoder gives, over any byte stream, the events that can be read off the stream, and it
  synchronises from any state at all after one whole frame.
- **Delivery** (`InMemoryBus`, `Delivery`, `PacketPath`). Senders, the broadcast bus and
  a reassembler per destination, end to end.
- **Time** (`Engine`, `DiscreteEventEngine`, `Settling`, `ScenarioRunner`). Dispatch order
  over every run, jumping against stepping, settling to a fixed point, and the polling
  loop of an assertion. In `Settling` a handler is a list of phases, so that it may settle
  the current instant in the middle of its work, as the physical-step timer does. Whatever
  a handler, a delivery or an emission asks for is shown to be dispatched or pending.
- **Incremental state against history** (`ObcRules`, `FaultOverrides`, `SignalLayout`,
  `Thermal`). Two timing fields against all past samples of a rule; tables cleaned lazily
  against all past activations; a byte-by-byte scan against disjoint intervals; Euler
  steps over exact reals against an equilibrium.

`Common` holds the option and result types and the insertion-ordered dictionary: Python
dictionaries iterate in that order, and it shows in the order of timeout events.

Integer fields have the bit widths the program validates (`bv2`, `bv6`, `bv14`, ...), so
that range errors cannot arise. Bytes are `bv8`, except in `SignalLayout`, where they are
numbers. Packet payloads are opaque. Virtual time is a natural number of microseconds,
and any integer where the reassembler takes it. Clocks, and what is outside a state
machine, are parameters.

Where the code and its documentation or a reader's expectation part, the code is followed:

- The reassembler's description says that stale packets go when a new sender starts one.
  They go when a first frame opens any key that is not in the table; a late continuation
  of a stale packet is still accepted (`FeedAccounts` says which packets a feed times
  out; `EndToEndDelivery` holds for any arrival times).
- A first frame's counter is checked by the one-frame codec but not by the reassembler
  (`OneFrameAgreement`, `NonzeroFirstCounterCompletes`).
- The frame counter is modulo 8, so losing eight frames in a row goes unnoticed
  (`CompletionIsWhole`, `EightLostFramesGoUnnoticed`).
- A KISS packet with payload length + 4 equal to the limit is sent but overflows at a
  receiver with the same limit (`PacketIsDecoded`).
- The KISS checksum does not protect the header (`HeaderIsNotProtected`). Because a
  receiver also accepts the checksum of header and payload, it does not protect the
  payload fully either: for any four consecutive payload bytes there is one replacement
  that is accepted (`DamageIsAccepted`, `FourDamagedBytes`).
- A wait whose event limit is reached just as time arrives at its target does not raise,
  even if more is due at that instant (`WaitStops`, `LimitReachedAtTheEnd`).

## Model

| member | source | states |
|---|---|---|
| CspV2.CanIdBijection | src/cubesat_testbed/protocol/csp_v2.py:772-793 | 29-bit CAN identifiers and the seven CAN fields correspond one to one: reading gives exactly the fields that writing would turn into that identifier |
| CspV2.IdentifierByWeight | src/cubesat_testbed/protocol/csp_v2.py:772-793 | an identifier is the sum of its seven fields by weight, from priority at the top to the end bit |
| CspV2.HeaderExtensionBijection | src/cubesat_testbed/protocol/csp_v2.py:796-818 | for a given priority and destination, 32-bit header extensions and the four CSP fields they carry correspond one to one |
| CspV2.ExtensionByWeight | src/cubesat_testbed/protocol/csp_v2.py:796-818 | a header extension is the sum of source, destination port, source port and flags by weight |
| CspV2.WordByWeight | src/cubesat_testbed/protocol/csp_v2.py:390-439 | a header extension is written most significant byte first |
| CspV2.PackDecodeInverse | src/cubesat_testbed/protocol/csp_v2.py:270-356 | decoding a packed frame gives back the fields, payload, sender and packet counter; packing what a valid frame decodes to gives back the very frame |
| CspV2.OneFrameIsPack | src/cubesat_testbed/protocol/csp_v2.py:390-439 | a packet can be packed into one frame exactly when fragmentation needs one frame, and then both give the same frame |
| CspV2.SplitPacket | src/cubesat_testbed/protocol/csp_v2.py:415-424 | the loop cuts a packet into the header with up to four payload bytes, then pieces of up to eight, with nothing lost and no empty last piece |
| CspV2.FragmentPacket | src/cubesat_testbed/protocol/csp_v2.py:390-439 | the frames of a packet carry its pieces in order, frame i counts i modulo 8, only the first has begin and only the last has end; the fragment flag is refused |
| CspV2.CarriedPrefix | src/cubesat_testbed/protocol/csp_v2.py:411-436 | the payload bytes of the first m frames are a prefix of the payload, and all of it once m is the number of frames |
| CspV2Packet.PackHeaderBijection | src/cubesat_testbed/protocol/csp_v2_packet.py:68-97 | six-byte headers and the six CSP fields correspond one to one |
| CspV2Packet.HeaderIsIdentifierThenExtension | src/cubesat_testbed/protocol/csp_v2_packet.py:68-97 | the header of a packet is the top 16 bits of its CAN identifier followed by its header extension, whatever its sender, counters and begin/end bits are |
| CspV2Packet.HeaderByWeight | src/cubesat_testbed/protocol/csp_v2_packet.py:68-97 | a header is the sum of its six fields by weight, written most significant byte first |
| Reassembly.ApplyKeepsTableOk | src/cubesat_testbed/protocol/csp_v2.py:567-742 | one feed or expire keeps the table invariant and completes only well-formed packets |
| Reassembly.RunKeepsTableOk | src/cubesat_testbed/protocol/csp_v2.py:567-742 | over every run, each held packet starts with a first frame, counts its frames modulo 8, has no end frame, and holds exactly their bytes within the limit; each completed packet is such a chain closed by the frame that completed it |
| Reassembly.OneFrameAgreement | src/cubesat_testbed/protocol/csp_v2.py:567-723 | under a free key a frame completes at once, to the same packet, exactly when the one-frame codec decodes it and it fits the limit, provided its frame counter is zero |
| Reassembly.NonzeroFirstCounterCompletes | src/cubesat_testbed/protocol/csp_v2.py:607-656 | without that proviso they disagree: every packet of one frame, given any nonzero frame counter, is refused by the codec and completed by the reassembler |
| Reassembler.CspReassembler.Expire | src/cubesat_testbed/protocol/csp_v2.py:725-742 | the deletion loop removes exactly the entries idle for more than the timeout and reports them, oldest entry first, as the step function of Reassembly.dfy says |
| Reassembler.CspReassembler.Begin | src/cubesat_testbed/protocol/csp_v2.py:607-636 | a first frame replaces whatever its key held, or is refused as malformed, in place, as the step function says |
| Reassembler.CspReassembler.Continue | src/cubesat_testbed/protocol/csp_v2.py:637-656 | a continuation is counted and stored in the partial packet it belongs to, or ends it as lost, as the step function says; lateness does not matter |
| Reassembler.CspReassembler.Extend | src/cubesat_testbed/protocol/csp_v2.py:658-723 | a chunk is stored, overflows the limit, or completes the packet and frees its key, as the step function says |
| Reassembler.CspReassembler.Feed | src/cubesat_testbed/protocol/csp_v2.py:567-723 | feeding one frame changes the table of mutable partial packets, and reports events, exactly as the step function the run theorems are about; no two keys ever share a partial packet |
| Reassembler.CspFragmenter.Fragment | src/cubesat_testbed/protocol/csp_v2.py:442-478 | a packet is sent exactly if its payload is at most the limit of the node and it has no fragment flag; it then uses and advances the counter of its sender, and a refused one leaves every counter alone |
| Loss.LossCharacterisation | src/cubesat_testbed/protocol/csp_v2.py:567-723 | for any subset of the frames of one packet under a free key: it completes if and only if the first and last frames arrive, consecutive delivered indices differ by 1 modulo 8, and the delivered bytes fit; it then carries exactly the delivered bytes |
| Loss.CompletionIsWhole | src/cubesat_testbed/protocol/csp_v2.py:637-656 | a completion carries the original payload if and only if no eight frames in a row were lost, and then every frame of the packet; of a packet of at most 68 bytes (nine frames) so many cannot be lost and the packet complete |
| Loss.EightLostFramesGoUnnoticed | src/cubesat_testbed/protocol/csp_v2.py:637-656 | such losses do occur in every longer packet: without frames 1 to 8, and the 64 bytes they carry, it completes |
| Loss.WholeDelivery | src/cubesat_testbed/protocol/csp_v2.py:390-439 | feeding all frames of a packet of any length gives one pending each and then the packet with its own fields, payload and frames if it fits; otherwise one overflow and an orphan for each later frame; nothing stays held |
| Loss.FramesAreFull | src/cubesat_testbed/protocol/csp_v2.py:390-439 | every frame of a packet but the last is full, so there are as few as can carry it; together they carry the header extension and the payload; frame i counts i modulo 8, the first alone begins, the last alone ends |
| Interleaving.NonInterference | src/cubesat_testbed/protocol/csp_v2.py:567-742 | for any frame sequence within one timeout window, the events and the final entry of a key are those of feeding that key's frames alone |
| Interleaving.LossAmongOtherTraffic | src/cubesat_testbed/protocol/csp_v2.py:567-742 | the loss characterisation holds on a busy link, whatever other frames are received in the window: when the packet completes, that it completes with exactly the delivered bytes and frames, and that nothing of it stays held |
| Interleaving.InterleavedPackets | src/cubesat_testbed/protocol/csp_v2.py:567-742 | any order-preserving interleaving of packets with frames under their own keys gives each packet its own events, and leaves the table empty |
| Interleaving.CountersFollowSentPackets | src/cubesat_testbed/protocol/csp_v2.py:442-478 | the counter of every sent packet is the number of packets its sender sent before, modulo 4, whatever was refused in between |
| Interleaving.SentAreChosen | src/cubesat_testbed/protocol/csp_v2.py:442-478 | for any list of requests, the packets sent are, in order and one each, the requests with a payload of at most the limit and no fragment flag, with their fields and payload |
| Interleaving.RefusalIsExact | src/cubesat_testbed/protocol/csp_v2.py:467-478 | a payload is over the limit exactly above it, and that is checked before the fragment flag |
| Interleaving.FourInFlightHaveDistinctKeys | src/cubesat_testbed/protocol/csp_v2.py:442-478 | any stretch of the sent packets with at most four packets of each sender has pairwise distinct keys |
| Interleaving.FourInFlightAreDelivered | src/cubesat_testbed/protocol/csp_v2.py:442-723 | such packets, interleaved frame by frame in any way within one timeout, all complete with their own fields, payload and frames |
| Conservation.StepAccounts | src/cubesat_testbed/protocol/csp_v2.py:567-723 | one frame under one key: the frame and those held are kept, completed or dropped, with one report, and a packet stays held exactly if the frame is pending |
| Conservation.FeedAccounts | src/cubesat_testbed/protocol/csp_v2.py:567-723 | a feed reports one timeout per packet it times out, at its last use plus the timeout and with the sender and destination of its key, then one restart if it gives up a packet, then exactly one outcome for its own frame; frames balance and no other packet is touched |
| Conservation.ExpireAccounts | src/cubesat_testbed/protocol/csp_v2.py:725-742 | expiry completes nothing, removes exactly the packets idle for more than the timeout, and reports each of them, in table order, as a timeout at its last use plus the timeout, with the sender and destination of its key and no frame |
| Outcomes.StepIsExplained | src/cubesat_testbed/protocol/csp_v2.py:607-723 | which report a frame gives, and what its key holds afterwards, is what the frames collected so far explain: orphan, lost, malformed, over the limit, complete, or pending |
| Outcomes.FeedIsExplained | src/cubesat_testbed/protocol/csp_v2.py:567-723 | a feed reports exactly its timeouts, then its restart, then that outcome; held packets keep their place in the table and a new one goes to its end |
| Conservation.FramesAreConserved | src/cubesat_testbed/protocol/csp_v2.py:567-742 | over every run, the frames held at the start and fed are, as a multiset, those held at the end, those of completed packets and those discarded |
| Crc32c.StepsAreLinear | src/cubesat_testbed/protocol/csp_v2_kiss.py:53-63 | shifting is linear over exclusive or, for any number of shifts |
| Crc32c.ShiftIsInjective | src/cubesat_testbed/protocol/csp_v2_kiss.py:53-63 | no two register values shift to the same value: the top bit of the polynomial tells whether it was fed back |
| Crc32c.TableStep | src/cubesat_testbed/protocol/csp_v2_kiss.py:66-72 | feeding a byte bit by bit equals one table step: eight shifts of the low byte, and a byte shift of the rest |
| Crc32c.CrcTable | src/cubesat_testbed/protocol/csp_v2_kiss.py:53-63 | entry i of the table is eight shifts of i |
| Crc32c.Crc32c | src/cubesat_testbed/protocol/csp_v2_kiss.py:66-72 | the table-driven checksum of every byte string is the bit-by-bit one of section 12.1 of RFC 3720 |
| Crc32c.BurstsAreDetected | src/cubesat_testbed/protocol/csp_v2_kiss.py:66-72 | two byte strings of equal length that differ only inside four consecutive bytes never have the same checksum |
| Crc32c.FourBytesDecideTheChecksum | src/cubesat_testbed/protocol/csp_v2_kiss.py:66-72 | any four consecutive bytes can be chosen to give any checksum, in exactly one way, whatever surrounds them |
| Polynomials.ChecksumIsRemainder | src/cubesat_testbed/protocol/csp_v2_kiss.py:53-72 | the checksum of every byte string is the remainder of its polynomial, complemented at both ends, on long division by x^32+x^28+x^27+x^26+x^25+x^23+x^22+x^20+x^19+x^18+x^14+x^13+x^11+x^10+x^9+x^8+x^6+1 |
| Polynomials.PolynomialIsCastagnoli | src/cubesat_testbed/protocol/csp_v2_kiss.py:53-63 | the constant of the table is that polynomial, bit-reversed |
| Polynomials.CheckValue | src/cubesat_testbed/protocol/csp_v2_kiss.py:53-72 | the checksum of the nine digits 1 to 9 is 0xE3069283, and that of nothing is 0 |
| Kiss.ChunkingDoesNotMatter | src/cubesat_testbed/protocol/csp_v2_kiss.py:175-218 | the events and the state after a byte stream do not depend on how it was cut into chunks |
| Kiss.OneFrameSynchronises | src/cubesat_testbed/protocol/csp_v2_kiss.py:175-223 | from any decoder state whatever, one complete frame of any size leaves the decoder idle or just after an opening delimiter |
| Kiss.FrameIsDecoded | src/cubesat_testbed/protocol/csp_v2_kiss.py:175-260 | between frames, a frame that fits is judged once and leaves the decoder idle; one that does not overflows exactly once, and its closing delimiter opens the next frame |
| Kiss.ContentIsJudged | src/cubesat_testbed/protocol/csp_v2_kiss.py:225-260 | the content of an encoded packet passes the checks and is that packet, unless it carries the fragment flag |
| Kiss.HeaderIsNotProtected | src/cubesat_testbed/protocol/csp_v2_kiss.py:225-260 | since a sender checksums the payload only, a frame whose header was replaced is still accepted, with the other fields |
| Kiss.DamagedPayloadIsRefused | src/cubesat_testbed/protocol/csp_v2_kiss.py:225-260 | a payload damaged within four consecutive bytes is refused with a checksum error exactly unless the checksum happens to be that of header and damaged payload together |
| Kiss.FourDamagedBytes | src/cubesat_testbed/protocol/csp_v2_kiss.py:225-260 | of all replacements of four consecutive payload bytes a receiver accepts exactly the original and one other; it refuses the rest with a checksum error |
| Kiss.DamageIsAccepted | src/cubesat_testbed/protocol/csp_v2_kiss.py:225-260 | that other replacement exists for every packet of at least four payload bytes and at every place, and is real damage unless the checksums of the payload and of header and payload happen to be equal |
| Kiss.PacketIsDecoded | src/cubesat_testbed/protocol/csp_v2_kiss.py:75-110 | an encoded packet comes back with its fields, payload and wire bytes exactly when payload length + 4 is below the receiver's limit, and otherwise as one overflow |
| Kiss.StreamIsDecoded | src/cubesat_testbed/protocol/csp_v2_kiss.py:175-260 | a stream of frames gives exactly one event per packet, in order |
| Kiss.ResynchronisesAfterGarbage | src/cubesat_testbed/protocol/csp_v2_kiss.py:175-260 | after any garbage, every frame following the first whole one is decoded as if there had been none |
| KissDecoder.EncodeKissFrame | src/cubesat_testbed/protocol/csp_v2_kiss.py:75-110 | the escaping loop produces the frame of the packet, or refuses it exactly when payload and checksum exceed the limit |
| KissDecoder.KissDecoder.Complete | src/cubesat_testbed/protocol/csp_v2_kiss.py:225-260 | a finished frame is judged as Kiss.dfy says: too short, checksum over the body or over header and body, fragment flag |
| KissDecoder.KissDecoder.FeedByte | src/cubesat_testbed/protocol/csp_v2_kiss.py:175-218 | one byte moves the four mutable fields and gives events as the step function the theorems of Kiss.dfy are about; on overflow the byte is read again while idle |
| KissDecoder.KissDecoder.Feed | src/cubesat_testbed/protocol/csp_v2_kiss.py:175-218 | feeding a chunk does what feeding its bytes does |
| KissHistory.DecoderFollowsStream | src/cubesat_testbed/protocol/csp_v2_kiss.py:175-223 | over any byte stream whatever, an idle decoder gives exactly the events read off the stream: from each opening delimiter, one at the first byte at which a nonempty frame closes or overflows |
| KissHistory.InsideUntil | src/cubesat_testbed/protocol/csp_v2_kiss.py:175-223 | until then the buffer is the unescaped stream without delimiters and without exactly one command byte, the first that is neither delimiter nor escape; an unknown escape adds nothing, and nothing is reported |
| KissHistory.ShortFrames | src/cubesat_testbed/protocol/csp_v2_kiss.py:225-260 | a frame is too short exactly below ten bytes |
| KissHistory.FrameOnTheLine | src/cubesat_testbed/protocol/csp_v2_kiss.py:75-110 | a frame on the line has delimiters only at its ends, the data command after the first, and in between symbols that stand for exactly the content |
| Engine.PushKeepsOrder | src/cubesat_testbed/engine.py:217-250 | scheduling at or after now keeps the queue in dispatch order and behind everything already dispatched |
| Engine.ScheduleAtIsExact | src/cubesat_testbed/engine.py:217-250 | an event may be scheduled exactly for now or later; it gets the next sequence number, and the queue gains that item and loses none |
| Engine.HandlerReacts | src/cubesat_testbed/engine.py:463-469 | a handler leaves the world it chose; every event it asked for is queued, numbered in order, its delay counted from now, and nothing pending is lost |
| Engine.OneShotRunsFirst | src/cubesat_testbed/engine.py:379-388 | time jumps to the next event; its one-shot handler runs first, then those of its kind in order of registration |
| Engine.AdvanceIsExact | src/cubesat_testbed/engine.py:444-461 | advancing is refused exactly if it would go back or pass over a pending event; it may stop at one |
| Engine.RunUntilKeepsOrder | src/cubesat_testbed/engine.py:409-442 | running to a horizon keeps that order, never goes back in time, and ends exactly at the horizon with nothing due if the event limit suffices |
| Engine.JumpEqualsSteps | src/cubesat_testbed/engine.py:409-442 | running to t1 and then to t2 dispatches the same trace and leaves the same state as running to t2, for all handlers that only schedule |
| Engine.IdleIsFarHorizon | src/cubesat_testbed/engine.py:390-407 | running until idle dispatches the same trace and leaves the same queue as running to any horizon its events do not pass |
| Engine.DispatchIsOrdered | src/cubesat_testbed/engine.py:217-461 | over every run of engine calls the trace strictly increases in (time, sequence), time never decreases, and no pending event lies in the past |
| DiscreteEventEngine.DiscreteEventEngine.AddHandler | src/cubesat_testbed/engine.py:200-204 | a handler is called after those registered before it for its kind, and no other kind is affected |
| DiscreteEventEngine.DiscreteEventEngine.ScheduleAt | src/cubesat_testbed/engine.py:217-250 | an event in the past is refused without effect; another gets the next sequence number and its place in the queue |
| DiscreteEventEngine.DiscreteEventEngine.HeapPush | src/cubesat_testbed/engine.py:240-248 | an item is queued after exactly those it does not precede |
| DiscreteEventEngine.DiscreteEventEngine.ScheduleAfter | src/cubesat_testbed/engine.py:252-263 | a delay counts from now |
| DiscreteEventEngine.DiscreteEventEngine.Dispatch | src/cubesat_testbed/engine.py:463-469 | the one-shot handler runs first, then those of the kind in order of registration |
| DiscreteEventEngine.DiscreteEventEngine.RunNext | src/cubesat_testbed/engine.py:379-388 | time jumps to the next event before its handlers run |
| DiscreteEventEngine.DiscreteEventEngine.RunUntil | src/cubesat_testbed/engine.py:409-442 | the dispatch loop gives the trace and state of the run the theorems are about, with or without an event limit |
| DiscreteEventEngine.DiscreteEventEngine.RunUntilIdle | src/cubesat_testbed/engine.py:390-407 | the loop without a horizon gives the trace and state of that run, with or without an event limit |
| DiscreteEventEngine.DiscreteEventEngine.AdvanceTo | src/cubesat_testbed/engine.py:444-461 | time moves without dispatching, or is refused without effect if that would go back or skip a pending event |
| InMemoryBus.InMemoryBusAdapter.Connect | src/cubesat_testbed/transport/in_memory.py:52-62 | a new endpoint starts with an empty stream; a connected one is refused |
| InMemoryBus.InMemoryBusAdapter.Disconnect | src/cubesat_testbed/transport/in_memory.py:69-75 | an endpoint loses its stream and no other stream changes |
| InMemoryBus.InMemoryBusAdapter.Send | src/cubesat_testbed/transport/in_memory.py:82-101 | a frame gets the next sequence number and goes to the monitor and to every endpoint but its sender; every stream keeps being, taken and queued together, what its endpoint has heard since it connected |
| InMemoryBus.InMemoryBusAdapter.Receive | src/cubesat_testbed/transport/in_memory.py:103-127 | the monitor stream delivers every frame ever sent once, in send order: the head of the queue moves to the record of what was taken |
| InMemoryBus.InMemoryBusAdapter.ReceiveAt | src/cubesat_testbed/transport/in_memory.py:103-127 | an endpoint's stream delivers the frames of others once, in send order: the head of the queue moves to the record of what was taken, and nothing else changes; an unknown endpoint is refused |
| InMemoryBus.InMemoryBusAdapter.Drain | src/cubesat_testbed/transport/base.py:190-202 | draining takes everything queued on the monitor, in order |
| Delivery.EndToEndDelivery | src/cubesat_testbed/scenario/runner.py:623-674 | for any sequence of packets sent over the bus, exactly those within their destination's limit reach routing, in send order and unchanged; each other one gives one overflow drop and an orphan drop per later frame; no reassembler holds anything afterwards |
| Delivery.ForeignFrameIsDropped | src/cubesat_testbed/scenario/runner.py:656-674 | a frame that is not CSP is one malformed drop without sender and destination, and disturbs no packet in progress |
| Delivery.OnlyDestinationHears | src/cubesat_testbed/scenario/runner.py:656-674 | a CSP frame changes nothing held for any node but its destination |
| PacketPath.PacketPath.SendPacket | src/cubesat_testbed/scenario/runner.py:623-644 | a packet is put on the bus as the frames of its fragmentation under its source's own counters, in order, or refused without a frame; every other source keeps its sender and its counters |
| PacketPath.PacketPath.ReassemblerFor | src/cubesat_testbed/scenario/runner.py:711-719 | a node gets a reassembler of its own on first use, with its own limit, and keeps it; the other nodes keep theirs |
| PacketPath.PacketPath.DeliverFrame | src/cubesat_testbed/scenario/runner.py:656-674 | one frame is fed to the reassembler of its destination only; what completes is routed and every drop is recorded, as the delivery theorem assumes |
| PacketPath.PacketPath.DrainTransportFrames | src/cubesat_testbed/scenario/runner.py:646-654 | everything queued is delivered in order, and the answer says whether there was anything |
| PacketPath.DrainDeliversSentPackets | src/cubesat_testbed/scenario/runner.py:623-674 | draining a bus that carries the frames of a sequence of packets routes those that fit, in send order, and records the drops of the others |
| PacketPath.AcceptedAreSent | src/cubesat_testbed/scenario/runner.py:623-644 | one packet is sent, in order and with its fields and payload, for each message without fragment flag whose payload is at most the limit of its source, 256 bytes unless configured |
| PacketPath.PacketPath.SendMessages | src/cubesat_testbed/scenario/runner.py:623-644 | after a list of messages the bus carries the frames of the packets of those not refused, in order, and every sender has advanced its own counters |
| PacketPath.PacketPath.SendAndDeliver | src/cubesat_testbed/scenario/runner.py:623-674 | end to end over the mutable objects: sending any list of messages and draining the bus routes exactly the packets within their destination's limit, in send order, records the drops of the others, and leaves nothing in progress |
| Settling.SettleContinues | src/cubesat_testbed/scenario/runner.py:571-591 | if settling ends, the time has not moved, nothing is due, the bus is empty, and dispatch order held throughout, however handlers nest settles of their own |
| Settling.SettleAtAnyDepth | src/cubesat_testbed/scenario/runner.py:571-591 | a bound on how deeply settles nest only decides whether settling ends, never how |
| Settling.WaitContinues | src/cubesat_testbed/scenario/runner.py:372-405 | a wait that ends does so exactly its delay later, settled; if nothing was pending before that, all it dispatches happens at its end |
| Settling.WaitOfZeroEmits | src/cubesat_testbed/scenario/runner.py:372-405 | a wait of zero emits telemetry after everything that was due has been dispatched: what the emission asks for at once is dispatched at that instant, what it asks for later is pending, and the second settle starts in the world it left |
| Settling.LongerWaitDoesNotEmit | src/cubesat_testbed/scenario/runner.py:372-405 | a wait of positive delay is the same whatever an emission would do |
| Settling.DrainIsHandled | src/cubesat_testbed/scenario/runner.py:571-591 | a settle that finds nothing due drains the bus, and what the delivery asks for is dispatched or pending when it ends |
| Settling.DueIsEngineRun | src/cubesat_testbed/scenario/runner.py:372-405 | under handlers that do not settle, running what is due is the run of the engine itself |
| Settling.SettlingHandlerSettles | src/cubesat_testbed/scenario/runner.py:571-591 | a handler that ends by settling leaves nothing due and the bus empty |
| Settling.WaitStops | src/cubesat_testbed/scenario/runner.py:393-402 | a wait raises for its limit on events exactly when something is still due and the last event it dispatched lies before its end; otherwise it goes on to settle |
| Settling.LimitReachedAtTheEnd | src/cubesat_testbed/scenario/runner.py:393-402 | so the limit does not bound a wait: of three events at its end and a limit of two, all three are dispatched and nothing is raised |
| Settling.PollingIsTight | src/cubesat_testbed/scenario/runner.py:470-521 | an assertion looks at every instant at which an event is due, settled, up to and including the deadline, and never past it: whatever is dispatched between two looks happens at the instant of the later one |
| Settling.VerdictIsDispatched | src/cubesat_testbed/scenario/runner.py:470-521 | the verdict is an assertion event of that instant with the next sequence number, and the settle that follows dispatches it |
| ScenarioRunner.ScenarioRunner.Dispatch | src/cubesat_testbed/engine.py:463-469 | the handlers of an event run phase by phase, settling in between where they ask for it |
| ScenarioRunner.ScenarioRunner.RunEngineUntil | src/cubesat_testbed/engine.py:409-442 | the event loop under handlers that may themselves settle: as many events as are due, up to the limit, and dispatch order is kept |
| ScenarioRunner.ScenarioRunner.RunCurrentEvents | src/cubesat_testbed/scenario/runner.py:571-591 | the round loop ends settled at the same instant, or reports that it did not settle |
| ScenarioRunner.ScenarioRunner.Wait | src/cubesat_testbed/scenario/runner.py:372-405 | the wait over the mutable engine ends exactly its delay later, settled, or raises; a wait of zero has handled what its emission asked for |
| ScenarioRunner.ScenarioRunner.AssertStep | src/cubesat_testbed/scenario/runner.py:470-521 | terminates, each wait getting closer to the deadline; passes at the first look at which the signal is observed and accepted, otherwise fails at exactly the deadline; the result is recorded once and reported as an event of that instant |
| ObcRules.CheckNames | src/cubesat_testbed/modules/obc_peer.py:270-278 | rules are accepted exactly when no two have the same name |
| ObcRules.FieldsAgreeWithHistory | src/cubesat_testbed/modules/obc_peer.py:427-464 | after any samples, condition_since is the time the current unbroken matching streak began, and last_triggered_at the time of the last firing |
| ObcRules.FiringIsExact | src/cubesat_testbed/modules/obc_peer.py:427-464 | a rule fires at a sample if and only if the streak ending there has lasted at least `for` and the previous firing is at least `cooldown` ago |
| ObcRules.ThresholdsMeanOrder | src/cubesat_testbed/modules/obc_peer.py:98-116 | without delay and cooldown, a rule fires at exactly the samples of its signal below, at most, above, or at least its threshold, as its operator says |
| ObcRules.FiringsAreSpaced | src/cubesat_testbed/modules/obc_peer.py:650-658 | under time that does not go back, any two firings are at least the cooldown apart |
| ObcRules.FiresUnlessRecent | src/cubesat_testbed/modules/obc_peer.py:427-464 | under such time, a rule fires exactly when its condition has held long enough and every earlier firing is at least the cooldown ago |
| ObcRules.RulesAreIndependent | src/cubesat_testbed/modules/obc_peer.py:427-481 | the timing of a rule depends only on the samples of its own signal and its own resets |
| ObcRules.ObcPeerModule.ObserveTelemetry | src/cubesat_testbed/modules/obc_peer.py:427-464 | one sample fires exactly the rules whose histories say so, in rule order, and keeps every rule's two fields in agreement with its history |
| ObcRules.ObcPeerModule.ResetRuleTiming | src/cubesat_testbed/modules/obc_peer.py:466-481 | a reset forgets the history of one rule or of all; an unknown name is refused without effect |
| FaultOverrides.SweepTableIsExact | src/cubesat_testbed/fault_injection.py:399-409 | clearing removes exactly the expired entries of a table and reports each once |
| FaultOverrides.ApplyAt | src/cubesat_testbed/fault_injection.py:189-409 | one operation changes the entry of one target only as that operation says, and whatever leaves the entry is what was there |
| FaultOverrides.LookupIsExact | src/cubesat_testbed/fault_injection.py:235-257 | while time does not go back, a lookup after any interleaving of activations, clears, reads and cycle advances answers the latest activation of its target if neither cleared nor expired, and otherwise nothing |
| FaultOverrides.OlderNeverReturns | src/cubesat_testbed/fault_injection.py:189-233 | once a target is activated again, no lookup ever answers an older override, however long that one was to last |
| FaultOverrides.OverrideLasts | src/cubesat_testbed/fault_injection.py:189-257 | while its target is left alone, an override is answered, with its value, strictly before its duration is over and strictly before its cycles have passed, and never after |
| FaultOverrides.StatesComeFirst | src/cubesat_testbed/fault_injection.py:399-409 | clearing reports every state override before any signal override |
| FaultOverrides.SweptKind | src/cubesat_testbed/fault_injection.py:399-409 | a sweep reports the targets whose overrides have expired, in table order |
| FaultOverrides.EachActivationLeavesOnce | src/cubesat_testbed/fault_injection.py:388-409 | the overrides of a target leave the table in the order they were activated, each once, and only the latest can still be there |
| FaultOverrides.FaultInjectionEngine.ActivateOverride | src/cubesat_testbed/fault_injection.py:189-233 | the new override, with the boundaries of its duration and cycles, becomes the latest activation of its target |
| FaultOverrides.FaultInjectionEngine.ClearOverride | src/cubesat_testbed/fault_injection.py:317-325 | the removed override is answered, if there was one |
| FaultOverrides.FaultInjectionEngine.ClearAll | src/cubesat_testbed/fault_injection.py:411-416 | no target has an override afterwards |
| FaultOverrides.FaultInjectionEngine.DeleteExpired | src/cubesat_testbed/fault_injection.py:399-409 | the loop over a snapshot of one table keeps exactly the unexpired entries and reports the others in table order |
| FaultOverrides.FaultInjectionEngine.ClearExpired | src/cubesat_testbed/fault_injection.py:399-409 | both tables are cleared, state overrides reported first |
| FaultOverrides.FaultInjectionEngine.AdvanceCycles | src/cubesat_testbed/fault_injection.py:388-397 | what expires by the advance of the cycle counter is cleared and reported |
| FaultOverrides.FaultInjectionEngine.GetOverride | src/cubesat_testbed/fault_injection.py:235-257 | the answer is the latest activation, unless cleared or expired |
| SignalLayout.ValueBijection | src/cubesat_testbed/protocol/signal_codec.py:135-160 | the bytes of an integer field and its in-range values correspond one to one, signed or unsigned, in either byte order |
| SignalLayout.ValueByWeight | src/cubesat_testbed/protocol/signal_codec.py:135-160 | a field reads as the sum of its bytes by weight, the first byte weighing most if big endian and least if little endian, less 256 to the length if it is signed and its heaviest byte is 128 or more |
| SignalLayout.CheckUniqueNames | src/cubesat_testbed/protocol/signal_codec.py:260-265 | accepts exactly the layouts whose names are pairwise different |
| SignalLayout.CheckNonOverlapping | src/cubesat_testbed/protocol/signal_codec.py:267-276 | the byte-by-byte scan accepts exactly the layouts whose byte intervals are pairwise disjoint |
| SignalLayout.Validate | src/cubesat_testbed/protocol/signal_codec.py:198-209 | a layout is accepted exactly when its names are unique, its fields disjoint and its frame length long enough, and otherwise refused for the first of these |
| SignalLayout.RequiredLengthIsLeast | src/cubesat_testbed/protocol/signal_codec.py:210-214 | the required length is the least number of bytes that holds every field |
| SignalLayout.FieldOrderDoesNotMatter | src/cubesat_testbed/protocol/signal_codec.py:229-246 | listing the same fields in another order gives the same payload |
| SignalLayout.Pack | src/cubesat_testbed/protocol/signal_codec.py:229-246 | packing succeeds exactly when every field and no other has a value in range, and then every field holds its value and every unused byte is zero |
| SignalLayout.UnpackAccepts | src/cubesat_testbed/protocol/signal_codec.py:248-296 | a payload is accepted exactly if it holds every field and has the frame length, if one is given |
| SignalLayout.PackUnpackInverse | src/cubesat_testbed/protocol/signal_codec.py:229-253 | a payload is the packing of some values if and only if it unpacks to them and its unused bytes are zero |
| Thermal.StabilityIsExact | src/cubesat_testbed/modules/thermal.py:145-166 | the configuration check accepts a coupled node if and only if no step before the clamp, from any temperature and under any command and faults, crosses the equilibrium |
| Thermal.EquilibriumUnderFaults | src/cubesat_testbed/modules/thermal.py:204-239 | the equilibrium lies above ambient by internal heat, and heater power if stuck on or, unless stuck off, commanded on, divided by the conductance |
| Thermal.DegradedRadiator | src/cubesat_testbed/modules/thermal.py:230-239 | a degraded radiator divides the excess over ambient by its factor |
| Thermal.TickStabilityIsExact | src/cubesat_testbed/modules/thermal.py:145-166 | for whole ticks, clamp included, the check is exact but for one case: a node nothing heats in surroundings at absolute zero never crosses its equilibrium, however long a tick is |
| Thermal.EulerMovesToward | src/cubesat_testbed/modules/thermal.py:301-312 | each tick moves the temperature strictly toward the current equilibrium, or leaves it there |
| Thermal.ClampNeverFires | src/cubesat_testbed/modules/thermal.py:301-312 | the absolute-zero clamp never changes a tick of an accepted configuration, coupled or not |
| Thermal.ErrorAfterTicks | src/cubesat_testbed/modules/thermal.py:301-312 | under fixed inputs the error after n ticks is (1 - k*dt/C)^n times the first |
| Thermal.TemperatureStaysBounded | src/cubesat_testbed/modules/thermal.py:204-312 | for every schedule of commands, named faults and ticks, the temperature stays between min(start, ambient) and, if coupled, max(start, hottest equilibrium) |
| Thermal.ThermalRcModule.SetHeaterEnabled | src/cubesat_testbed/modules/thermal.py:265-272 | a command is recorded even while a fault overrides it |
| Thermal.ThermalRcModule.Advance | src/cubesat_testbed/modules/thermal.py:301-313 | the tick loop keeps the temperature within the bounds and scales the error by the power above |

## Left out

- FourInFlightAreDelivered: takes the window of one timeout as its horizon. Outside it a begin frame of one packet may time out another, as the program intends; `NonInterference` has the same bound.
- RunUntil: like RunUntilIdle, without a limit on events, requires that the run ends by itself; the program would not return otherwise. Handlers only schedule, at non-negative delays.
- Dispatch: the handlers of a kind are fixed while one of its events is dispatched. Registering or removing handlers from inside a handler, scheduling at absolute times from one, and a handler that runs the engine past the horizon of the run it is part of, are not modelled.
- SettleContinues: nested settles have a depth bound, which `SettleAtAnyDepth` shows to be harmless; Python's own recursion limit plays that part. What state a run is in after it raised is not stated.
- AssertStep: the comparison operators of assertions are a predicate on the observed value, and reading a telemetry signal is a function of the world.
- HeapPush: the heap is kept as a sorted sequence; the order in which its internal array holds items is not modelled.
- ScenarioRunner: holds the engine's state as a value instead of a reference to the engine object, because its handlers may settle in the middle of an event; aliasing of the engine is not captured.
- ReceiveAt: endpoint names are natural numbers, and a blocking receive that sleeps out its timeout is not modelled.
- ObserveTelemetry: telemetry values are finite reals; the actions a firing rule executes (commands, faults), and the error a non-numeric value raises, are not modelled.
- ClearAll: the named-fault flags, which never expire, are not modelled, nor is the path syntax of targets.
- PackUnpackInverse: integer fields with unit scale and zero offset only; IEEE 754 fields, scale and offset are library float behaviour.
- TemperatureStaysBounded: over exact reals, without model-state overrides; rounding and the telemetry of the node are not modelled.
- EncodeKissFrame: fields arrive already validated; what the KISS adapter does with a serial line is not part of this model.
- Removing a handler, pending counts, clearing the bus and its list of endpoints: single-branch members.
- The text of event details, warnings, trace lines and reports.
- Routing of a completed packet to a command or telemetry handler, the scenario steps that inject faults or send commands, and the expiry at the end of a run.
- SocketCAN, serial lines, the KISS adapter, the real-time clock and the paced wait.
- Configuration files, schemas, module registry, EPS, payload and device-under-test modules, and the command line.
- The CRC32 and HMAC trailers a packet's own flags announce: the program carries them as payload.
