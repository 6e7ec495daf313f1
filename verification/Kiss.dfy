/** KISS framing as functions: the encoder, the byte-at-a-time decoder, and how they
    fit together. */
module Kiss {
  import opened Common
  import opened CspV2
  import opened CspV2Packet
  import opened Crc32c

  const FEND: byte := 0xC0
  const FESC: byte := 0xDB
  const TFEND: byte := 0xDC
  const TFESC: byte := 0xDD
  const TNC_DATA: byte := 0
  const CRC32_BYTES: nat := 4

  // ---- Encoding ----

  function EscapeByte(b: byte): bytes {
    if b == FEND then [FESC, TFEND] else if b == FESC then [FESC, TFESC] else [b]
  }

  function Escape(data: bytes): bytes {
    if data == [] then [] else Escape(data[..|data| - 1]) + EscapeByte(data[|data| - 1])
  }

  /** A packet as it is checksummed and escaped. */
  function Content(fields: CspFields, payload: bytes): (c: bytes)
    ensures |c| == |payload| + 10
  {
    PackHeader(fields) + payload + ToBytes4(Crc(payload))
  }

  /** The bytes of one frame on the line. */
  function Frame(content: bytes): bytes {
    [FEND, TNC_DATA] + Escape(content) + [FEND]
  }

  // ---- Decoding ----

  datatype Reason = Overflow | TooShort | CrcError | Malformed

  datatype KissEvent =
    | Packet(fields: CspFields, payload: bytes, wire: bytes)
    | Dropped(reason: Reason, wire: bytes, header: Option<CspFields>, limit: Option<nat>)

  datatype Mode = NotStarted | Started | Escaped

  datatype State = State(mode: Mode, first: bool, buffer: bytes, wire: bytes)

  datatype Decoding = Decoding(state: State, events: seq<KissEvent>)

  /** What a finished frame amounts to. */
  function Judge(content: bytes, wire: bytes): KissEvent {
    var n := |content|;
    if n < HEADER_BYTES + CRC32_BYTES then Dropped(TooShort, wire, None, None)
    else
      var header, body, trailer := content[..HEADER_BYTES], content[HEADER_BYTES..n - CRC32_BYTES], content[n - CRC32_BYTES..];
      var fields := UnpackHeader(header);
      var received := FromBytes4(trailer);
      if received != Crc(header + body) && received != Crc(body) then Dropped(CrcError, wire, Some(fields), None)
      else if HasFragmentFlag(fields) then Dropped(Malformed, wire, Some(fields), None)
      else Packet(fields, body, wire)
  }

  function Reset(s: State): State {
    State(NotStarted, s.first, [], [])
  }

  predicate Overflowing(max: nat, s: State) {
    s.mode != NotStarted && |s.buffer| >= max + HEADER_BYTES
  }

  function OverflowOf(max: nat, s: State): KissEvent {
    Dropped(Overflow, s.wire, None, Some(max))
  }

  /** One byte, once the buffer is known to have room. */
  function ReadByte(s: State, b: byte): Decoding {
    match s.mode
    case NotStarted => Decoding(if b == FEND then State(Started, true, [], [FEND]) else s, [])
    case Started =>
      var t := s.(wire := s.wire + [b]);
      if b == FESC then Decoding(t.(mode := Escaped), [])
      else if b == FEND then
        if s.buffer == [] then Decoding(t, []) else Decoding(Reset(t), [Judge(t.buffer, t.wire)])
      else if s.first then Decoding(t.(first := false), [])
      else Decoding(t.(buffer := s.buffer + [b]), [])
    case Escaped =>
      var plain := if b == TFESC then [FESC] else if b == TFEND then [FEND] else [];
      Decoding(State(Started, s.first, s.buffer + plain, s.wire + [b]), [])
  }

  function StepByte(max: nat, s: State, b: byte): Decoding {
    if Overflowing(max, s) then
      var d := ReadByte(Reset(s), b);
      Decoding(d.state, [OverflowOf(max, s)] + d.events)
    else ReadByte(s, b)
  }

  function Decode(max: nat, s: State, data: bytes): Decoding {
    if data == [] then Decoding(s, [])
    else
      var before := Decode(max, s, data[..|data| - 1]);
      var d := StepByte(max, before.state, data[|data| - 1]);
      Decoding(d.state, before.events + d.events)
  }

  lemma DecodeNone(max: nat, s: State)
    ensures Decode(max, s, []) == Decoding(s, [])
  {
  }

  lemma DecodeSnoc(max: nat, s: State, data: bytes, b: byte)
    ensures var before := Decode(max, s, data); var d := StepByte(max, before.state, b);
      Decode(max, s, data + [b]) == Decoding(d.state, before.events + d.events)
  {
    hide StepByte;
    assert (data + [b])[..|data|] == data;
  }

  lemma DecodeOne(max: nat, s: State, b: byte)
    ensures Decode(max, s, [b]) == StepByte(max, s, b)
  {
    hide StepByte;
    DecodeSnoc(max, s, [], b);
    assert [] + [b] == [b];
  }

  /** The events do not depend on how the bytes are cut into chunks. */
  lemma {:induction false} ChunkingDoesNotMatter(max: nat, s: State, a: bytes, b: bytes)
    ensures var first := Decode(max, s, a); var second := Decode(max, first.state, b);
      Decode(max, s, a + b) == Decoding(second.state, first.events + second.events)
    decreases |b|
  {
    hide StepByte, Decode;
    var first := Decode(max, s, a);
    if b == [] {
      assert a + b == a;
      DecodeNone(max, first.state);
    } else {
      var init, last := b[..|b| - 1], b[|b| - 1];
      var second := Decode(max, first.state, init);
      ChunkingDoesNotMatter(max, s, a, init);
      DecodeSnoc(max, s, a + init, last);
      DecodeSnoc(max, first.state, init, last);
      assert a + b == (a + init) + [last] && b == init + [last];
      var d := StepByte(max, second.state, last);
      assert (first.events + second.events) + d.events == first.events + (second.events + d.events);
    }
  }

  // ---- Escaped bytes ----

  lemma EscapeSnoc(data: bytes, b: byte)
    ensures Escape(data + [b]) == Escape(data) + EscapeByte(b)
  {
    hide EscapeByte;
    assert (data + [b])[..|data|] == data;
  }

  /** A decoder that is skipping ignores escaped bytes. */
  lemma {:induction false} SkipsEscaped(max: nat, s: State, data: bytes)
    requires s.mode == NotStarted
    ensures Decode(max, s, Escape(data)) == Decoding(s, [])
    decreases |data|
  {
    hide Decode;
    if data == [] {
      DecodeNone(max, s);
    } else {
      var init, b := data[..|data| - 1], data[|data| - 1];
      SkipsEscaped(max, s, init);
      ChunkingDoesNotMatter(max, s, Escape(init), EscapeByte(b));
      SkipsByte(max, s, b);
    }
  }

  lemma SkipsByte(max: nat, s: State, b: byte)
    requires s.mode == NotStarted
    ensures Decode(max, s, EscapeByte(b)) == Decoding(s, [])
  {
    hide Decode;
    if b == FEND || b == FESC {
      var t := EscapeByte(b)[1];
      DecodeOne(max, s, FESC);
      DecodeSnoc(max, s, [FESC], t);
      assert [FESC] + [t] == EscapeByte(b);
    } else {
      DecodeOne(max, s, b);
    }
  }

  /** Inside a frame, past the command byte. */
  predicate InBody(s: State) {
    s.mode == Started && !s.first
  }

  /** The state after reading `data`, escaped, into the buffer. */
  function Grown(s: State, data: bytes): State {
    State(Started, false, s.buffer + data, s.wire + Escape(data))
  }

  lemma ReadsByte(max: nat, s: State, b: byte)
    requires InBody(s) && |s.buffer| < max + HEADER_BYTES
    ensures Decode(max, s, EscapeByte(b))
      == Decoding(State(Started, false, s.buffer + [b], s.wire + EscapeByte(b)), [])
  {
    hide Decode;
    if b == FEND || b == FESC {
      var t := EscapeByte(b)[1];
      DecodeOne(max, s, FESC);
      DecodeSnoc(max, s, [FESC], t);
      assert [FESC] + [t] == EscapeByte(b);
      assert s.wire + [FESC] + [t] == s.wire + EscapeByte(b);
    } else {
      DecodeOne(max, s, b);
    }
  }

  /** Escaped bytes that fit the buffer are read into it. */
  lemma {:induction false} ReadsEscaped(max: nat, s: State, data: bytes)
    requires InBody(s) && |s.buffer| + |data| <= max + HEADER_BYTES
    ensures Decode(max, s, Escape(data)) == Decoding(Grown(s, data), [])
    decreases |data|
  {
    hide Decode, EscapeByte;
    if data == [] {
      DecodeNone(max, s);
      assert s.buffer + [] == s.buffer && s.wire + [] == s.wire;
    } else {
      var init, b := data[..|data| - 1], data[|data| - 1];
      var t := Grown(s, init);
      ReadsEscaped(max, s, init);
      ChunkingDoesNotMatter(max, s, Escape(init), EscapeByte(b));
      ReadsByte(max, t, b);
      assert t.buffer + [b] == s.buffer + data;
      assert t.wire + EscapeByte(b) == s.wire + Escape(data);
    }
  }

  lemma {:induction false} EscapeAppend(a: bytes, b: bytes)
    ensures Escape(a + b) == Escape(a) + Escape(b)
    decreases |b|
  {
    hide EscapeByte;
    if b == [] {
      assert a + b == a;
    } else {
      EscapeAppend(a, b[..|b| - 1]);
      assert (a + b)[..|a + b| - 1] == a + b[..|b| - 1];
    }
  }

  /** The first escaped byte is no delimiter, and a skipping decoder ignores the rest. */
  lemma EscapeStarts(max: nat, s: State, data: bytes) returns (first: byte, rest: bytes)
    requires data != [] && s.mode == NotStarted
    ensures Escape(data) == [first] + rest && first != FEND
    ensures Decode(max, s, rest) == Decoding(s, [])
  {
    hide Decode, EscapeByte, Escape;
    var b, others := data[0], data[1..];
    assert data == [b] + others;
    EscapeAppend([b], others);
    EscapeOne(b);
    var tail;
    first, tail := EscapedByteStarts(max, s, b);
    rest := tail + Escape(others);
    assert ([first] + tail) + Escape(others) == [first] + rest;
    ChunkingDoesNotMatter(max, s, tail, Escape(others));
    SkipsEscaped(max, s, others);
  }

  lemma EscapeOne(b: byte)
    ensures Escape([b]) == EscapeByte(b)
  {
    assert [b][..0] == [];
    assert [] + EscapeByte(b) == EscapeByte(b);
  }

  lemma EscapedByteStarts(max: nat, s: State, b: byte) returns (first: byte, tail: bytes)
    requires s.mode == NotStarted
    ensures EscapeByte(b) == [first] + tail && first != FEND
    ensures Decode(max, s, tail) == Decoding(s, [])
  {
    hide Decode;
    first, tail := EscapeByte(b)[0], EscapeByte(b)[1..];
    if tail == [] {
      DecodeNone(max, s);
    } else {
      DecodeOne(max, s, tail[0]);
      assert tail == [tail[0]];
    }
  }

  /** How much of `data` still fits the buffer. */
  function Room(max: nat, s: State, data: bytes): nat {
    var limit := max + HEADER_BYTES;
    if |s.buffer| >= limit then 0 else if |s.buffer| + |data| <= limit then |data| else limit - |s.buffer|
  }

  /** Escaped bytes that do not fit overflow once; the rest of them is skipped. */
  lemma OverflowsOnEscaped(max: nat, s: State, data: bytes)
    requires InBody(s) && |s.buffer| + |data| > max + HEADER_BYTES && data != []
    ensures var full := Grown(s, data[..Room(max, s, data)]);
      Decode(max, s, Escape(data)) == Decoding(Reset(full), [OverflowOf(max, full)])
  {
    hide Decode, Escape, EscapeByte;
    var room := Room(max, s, data);
    var a, b := data[..room], data[room..];
    assert data == a + b;
    var full := Grown(s, a);
    EscapeAppend(a, b);
    if room > 0 {
      ReadsEscaped(max, s, a);
    } else {
      EscapeNothing();
      DecodeNone(max, s);
      assert a == [] && s.buffer + [] == s.buffer && s.wire + [] == s.wire;
    }
    var first, rest := EscapeStarts(max, Reset(full), b);
    ChunkingDoesNotMatter(max, s, Escape(a), Escape(b));
    ChunkingDoesNotMatter(max, full, [first], rest);
    DecodeOne(max, full, first);
  }

  lemma EscapeNothing()
    ensures Escape([]) == []
  {
  }

  // ---- Whole frames ----

  predicate Idle(s: State) {
    s.mode == NotStarted && s.buffer == [] && s.wire == []
  }

  /** A frame has just been opened. */
  const FRESH := State(Started, true, [], [FEND])

  /** Between frames: skipping, or just after an opening delimiter. */
  predicate Synced(s: State) {
    Idle(s) || s == FRESH
  }

  /** What the opening delimiter and the command byte lead to. */
  lemma OpensFrame(max: nat, s: State)
    ensures var d := Decode(max, s, [FEND, TNC_DATA]);
      d.state.mode == NotStarted || InBody(d.state)
    ensures Synced(s) ==>
      Decode(max, s, [FEND, TNC_DATA])
      == Decoding(State(Started, false, [], (if Idle(s) then [] else [FEND]) + [FEND, TNC_DATA]), [])
  {
    hide Decode, Judge;
    DecodeOne(max, s, FEND);
    DecodeSnoc(max, s, [FEND], TNC_DATA);
    assert [FEND] + [TNC_DATA] == [FEND, TNC_DATA];
    assert s == FRESH ==> [FEND] + [FEND] + [TNC_DATA] == [FEND] + [FEND, TNC_DATA];
  }

  /** Whether the content of a frame fits a receiver with this buffer. */
  predicate FitsReceiver(max: nat, content: bytes) {
    |content| < max + HEADER_BYTES
  }

  /** From a state inside a frame, or skipping, the rest of a frame leads to sync. */
  lemma BodyEndsInSync(max: nat, s: State, content: bytes)
    requires content != [] && (s.mode == NotStarted || InBody(s))
    ensures Synced(Decode(max, s, Escape(content) + [FEND]).state)
  {
    hide Decode, Escape, Judge;
    var d := Decode(max, s, Escape(content));
    DecodeSnoc(max, s, Escape(content), FEND);
    if s.mode == NotStarted {
      SkipsEscaped(max, s, content);
    } else if |s.buffer| + |content| <= max + HEADER_BYTES {
      ReadsEscaped(max, s, content);
    } else {
      OverflowsOnEscaped(max, s, content);
    }
  }

  lemma FrameParts(max: nat, s: State, content: bytes)
    ensures var inside := Decode(max, s, [FEND, TNC_DATA]);
      var rest := Decode(max, inside.state, Escape(content) + [FEND]);
      Decode(max, s, Frame(content)) == Decoding(rest.state, inside.events + rest.events)
  {
    hide Decode, Escape;
    assert Frame(content) == [FEND, TNC_DATA] + (Escape(content) + [FEND]);
    ChunkingDoesNotMatter(max, s, [FEND, TNC_DATA], Escape(content) + [FEND]);
  }

  /** Self-synchronisation: from any state at all, after any garbage, one complete
      frame of any size leaves the decoder between frames. */
  lemma OneFrameSynchronises(max: nat, s: State, content: bytes)
    requires content != []
    ensures Synced(Decode(max, s, Frame(content)).state)
  {
    hide Decode, Escape, Frame, Synced;
    FrameParts(max, s, content);
    OpensFrame(max, s);
    BodyEndsInSync(max, Decode(max, s, [FEND, TNC_DATA]).state, content);
  }

  /** The bytes a frame is reported with: a decoder that was already opened also
      counts the delimiter that inside it. */
  function WireOf(s: State, bytesOfFrame: bytes): bytes {
    (if Idle(s) then [] else [FEND]) + bytesOfFrame
  }

  /** What one frame gives a synchronised decoder. */
  function FrameEvent(max: nat, s: State, content: bytes): KissEvent {
    if FitsReceiver(max, content) then Judge(content, WireOf(s, Frame(content)))
    else
      var taken := if |content| <= max + HEADER_BYTES then content else content[..max + HEADER_BYTES];
      Dropped(Overflow, WireOf(s, [FEND, TNC_DATA] + Escape(taken)), None, Some(max))
  }

  /** A synchronised decoder judges a frame that fits, and is idle after it; a frame
      that does not fit overflows exactly once, and its closing delimiter opens the
      next frame. */
  lemma FrameIsDecoded(max: nat, s: State, content: bytes)
    requires Synced(s) && content != []
    ensures var d := Decode(max, s, Frame(content));
      && d.events == [FrameEvent(max, s, content)]
      && if FitsReceiver(max, content) then Idle(d.state) else d.state == FRESH
  {
    hide Decode, Escape, Judge;
    var inside := Decode(max, s, [FEND, TNC_DATA]);
    FrameParts(max, s, content);
    OpensFrame(max, s);
    DecodeSnoc(max, inside.state, Escape(content), FEND);
    assert [] + content == content;
    if |content| <= max + HEADER_BYTES {
      ReadsEscaped(max, inside.state, content);
      assert inside.state.wire + Escape(content) + [FEND] == WireOf(s, Frame(content));
      assert inside.state.wire + Escape(content) == WireOf(s, [FEND, TNC_DATA] + Escape(content));
    } else {
      OverflowsOnEscaped(max, inside.state, content);
      var taken := content[..max + HEADER_BYTES];
      assert [] + taken == taken;
      assert inside.state.wire + Escape(taken) == WireOf(s, [FEND, TNC_DATA] + Escape(taken));
    }
  }

  /** The content of an encoded packet is judged to be that packet. */
  lemma ContentIsJudged(fields: CspFields, payload: bytes, wire: bytes)
    ensures Judge(Content(fields, payload), wire)
      == if HasFragmentFlag(fields) then Dropped(Malformed, wire, Some(fields), None) else Packet(fields, payload, wire)
  {
    hide PackHeader, UnpackHeader, ToBytes4, HasFragmentFlag, Crc, Judge;
    PackHeaderBijection(PackHeader(fields), fields);
    PartsAreJudged(PackHeader(fields), payload, Crc(payload), wire);
  }

  /** What a receiver makes of a header, a body and a checksum. */
  lemma PartsAreJudged(header: bytes, body: bytes, crc: word, wire: bytes)
    requires |header| == HEADER_BYTES
    ensures Judge(header + body + ToBytes4(crc), wire)
      == if crc != Crc(header + body) && crc != Crc(body) then Dropped(CrcError, wire, Some(UnpackHeader(header)), None)
         else if HasFragmentFlag(UnpackHeader(header)) then Dropped(Malformed, wire, Some(UnpackHeader(header)), None)
         else Packet(UnpackHeader(header), body, wire)
  {
    hide UnpackHeader, ToBytes4, FromBytes4, HasFragmentFlag, Crc;
    var c := header + body + ToBytes4(crc);
    Bytes4Bijection(crc, ToBytes4(crc));
    assert c[..6] == header && c[6..|c| - 4] == body && c[|c| - 4..] == ToBytes4(crc);
  }

  /** The checksum a sender computes does not protect the header: with any other header
      in its place, the frame is still a packet, with the other fields. */
  lemma HeaderIsNotProtected(fields: CspFields, payload: bytes, header: bytes, wire: bytes)
    requires |header| == HEADER_BYTES && !HasFragmentFlag(UnpackHeader(header))
    ensures Judge(header + Content(fields, payload)[HEADER_BYTES..], wire) == Packet(UnpackHeader(header), payload, wire)
  {
    hide PackHeader, UnpackHeader, ToBytes4, HasFragmentFlag, Crc, Judge;
    PartsAreJudged(header, payload, Crc(payload), wire);
    assert header + Content(fields, payload)[HEADER_BYTES..] == header + payload + ToBytes4(Crc(payload));
  }

  /** It does protect the payload against damage within four consecutive bytes, but for
      the second way a receiver accepts it: the frame is refused unless the checksum
      sent happens to be that of the header with the damaged payload. */
  lemma DamagedPayloadIsRefused(fields: CspFields, prefix: bytes, sent: bytes, got: bytes, suffix: bytes, wire: bytes)
    requires |sent| == |got| <= 4 && sent != got
    ensures var header, damaged, crc := PackHeader(fields), prefix + got + suffix, Crc(prefix + sent + suffix);
      (Judge(header + damaged + ToBytes4(crc), wire) == Dropped(CrcError, wire, Some(fields), None))
      <==> (crc != Crc(header + damaged))
  {
    hide PackHeader, UnpackHeader, ToBytes4, HasFragmentFlag, Crc, Judge;
    PackHeaderBijection(PackHeader(fields), fields);
    BurstsAreDetected(prefix, sent, got, suffix);
    PartsAreJudged(PackHeader(fields), prefix + got + suffix, Crc(prefix + sent + suffix), wire);
  }

  /** The four bytes that a receiver accepts in place of four payload bytes, because the
      checksum sent is then that of the header with the damaged payload. */
  function AcceptedInstead(fields: CspFields, prefix: bytes, sent: bytes, suffix: bytes): (got: bytes)
    ensures |got| == 4
  {
    BytesFor(PackHeader(fields) + prefix, suffix, Crc(prefix + sent + suffix))
  }

  /** Of all four-byte replacements of four payload bytes, wherever they lie, a receiver
      accepts exactly the original and one other. */
  lemma FourDamagedBytes(fields: CspFields, prefix: bytes, sent: bytes, got: bytes, suffix: bytes, wire: bytes)
    requires |sent| == |got| == 4
    ensures var header, damaged, crc := PackHeader(fields), prefix + got + suffix, Crc(prefix + sent + suffix);
      Judge(header + damaged + ToBytes4(crc), wire) ==
        if got != sent && got != AcceptedInstead(fields, prefix, sent, suffix) then Dropped(CrcError, wire, Some(fields), None)
        else if HasFragmentFlag(fields) then Dropped(Malformed, wire, Some(fields), None)
        else Packet(fields, damaged, wire)
  {
    hide PackHeader, UnpackHeader, ToBytes4, HasFragmentFlag, Crc, Judge, BytesFor;
    var header, damaged, crc := PackHeader(fields), prefix + got + suffix, Crc(prefix + sent + suffix);
    PackHeaderBijection(header, fields);
    PartsAreJudged(header, damaged, crc, wire);
    if got != sent {
      BurstsAreDetected(prefix, sent, got, suffix);
    }
    FourBytesDecideTheChecksum(header + prefix, got, suffix, crc);
    assert header + prefix + got + suffix == header + damaged;
  }

  /** The other one is real damage, for every packet with at least four payload bytes and
      at every place, unless the packet's two checksums happen to be equal. */
  lemma DamageIsAccepted(fields: CspFields, prefix: bytes, sent: bytes, suffix: bytes, wire: bytes)
    requires |sent| == 4 && !HasFragmentFlag(fields)
    ensures var header, payload := PackHeader(fields), prefix + sent + suffix;
      var got := AcceptedInstead(fields, prefix, sent, suffix);
      && Judge(header + (prefix + got + suffix) + ToBytes4(Crc(payload)), wire) == Packet(fields, prefix + got + suffix, wire)
      && (got == sent <==> Crc(header + payload) == Crc(payload))
  {
    hide PackHeader, ToBytes4, HasFragmentFlag, Crc, Judge, BytesFor;
    var header, payload := PackHeader(fields), prefix + sent + suffix;
    FourDamagedBytes(fields, prefix, sent, AcceptedInstead(fields, prefix, sent, suffix), suffix, wire);
    FourBytesDecideTheChecksum(header + prefix, sent, suffix, Crc(payload));
    assert header + prefix + sent + suffix == header + payload;
  }

  // ---- Streams ----

  datatype Sent = Sent(fields: CspFields, payload: bytes) {
    function Bytes(): bytes { Content(fields, payload) }
  }

  function Stream(packets: seq<Sent>): bytes {
    if packets == [] then [] else Stream(packets[..|packets| - 1]) + Frame(packets[|packets| - 1].Bytes())
  }

  /** What a receiver should make of a packet: itself, if it fits. */
  function Expected(max: nat, marked: bool, p: Sent): KissEvent {
    var mark := if marked then [FEND] else [];
    if |p.payload| + CRC32_BYTES < max then
      var wire := mark + Frame(p.Bytes());
      if HasFragmentFlag(p.fields) then Dropped(Malformed, wire, Some(p.fields), None)
      else Packet(p.fields, p.payload, wire)
    else
      var room := if |p.payload| + CRC32_BYTES == max then p.Bytes() else p.Bytes()[..max + HEADER_BYTES];
      Dropped(Overflow, mark + ([FEND, TNC_DATA] + Escape(room)), None, Some(max))
  }

  /** The events of a stream of packets: one per packet. A packet that does not fit
      leaves the decoder with a frame already opened. */
  function ExpectedAll(max: nat, marked: bool, packets: seq<Sent>): (events: seq<KissEvent>)
    ensures |events| == |packets|
  {
    if packets == [] then []
    else
      var n := |packets| - 1;
      ExpectedAll(max, marked, packets[..n]) + [Expected(max, OpenedAfter(max, marked, packets[..n]), packets[n])]
  }

  function OpenedAfter(max: nat, marked: bool, packets: seq<Sent>): bool {
    if packets == [] then marked else |packets[|packets| - 1].payload| + CRC32_BYTES >= max
  }

  lemma PacketIsDecoded(max: nat, s: State, p: Sent)
    requires Synced(s)
    ensures var d := Decode(max, s, Frame(p.Bytes()));
      && d.events == [Expected(max, s == FRESH, p)]
      && Synced(d.state) && (d.state == FRESH <==> |p.payload| + CRC32_BYTES >= max)
  {
    hide Decode, Escape, Judge, Content, HasFragmentFlag;
    FrameIsDecoded(max, s, p.Bytes());
    ContentIsJudged(p.fields, p.payload, WireOf(s, Frame(p.Bytes())));
  }

  /** A synchronised decoder turns a stream of frames into exactly one event per
      packet: the packet itself, byte for byte, if and only if payload plus checksum
      stay below the receiver's limit. */
  lemma {:induction false} StreamIsDecoded(max: nat, s: State, packets: seq<Sent>)
    requires Synced(s)
    ensures var d := Decode(max, s, Stream(packets));
      && d.events == ExpectedAll(max, s == FRESH, packets)
      && Synced(d.state) && (d.state == FRESH <==> OpenedAfter(max, s == FRESH, packets))
  {
    hide Decode, Frame, Expected, Content, Synced;
    if packets == [] {
      DecodeNone(max, s);
    } else {
      var n := |packets| - 1;
      var before := Decode(max, s, Stream(packets[..n]));
      StreamIsDecoded(max, s, packets[..n]);
      ChunkingDoesNotMatter(max, s, Stream(packets[..n]), Frame(packets[n].Bytes()));
      PacketIsDecoded(max, before.state, packets[n]);
    }
  }

  /** After any garbage, the frames after the first whole one are decoded exactly. */
  lemma ResynchronisesAfterGarbage(max: nat, s: State, garbage: bytes, lost: Sent, packets: seq<Sent>)
    ensures var d := Decode(max, s, garbage + Frame(lost.Bytes()));
      && Synced(d.state)
      && Decode(max, s, garbage + Frame(lost.Bytes()) + Stream(packets)).events
         == d.events + ExpectedAll(max, d.state == FRESH, packets)
  {
    hide Decode, Frame, Content, Expected, ExpectedAll, Stream, Synced;
    ChunkingDoesNotMatter(max, s, garbage, Frame(lost.Bytes()));
    OneFrameSynchronises(max, Decode(max, s, garbage).state, lost.Bytes());
    var d := Decode(max, s, garbage + Frame(lost.Bytes()));
    ChunkingDoesNotMatter(max, s, garbage + Frame(lost.Bytes()), Stream(packets));
    StreamIsDecoded(max, d.state, packets);
  }
}
