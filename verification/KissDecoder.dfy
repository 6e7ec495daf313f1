/** The KISS encoder and decoder as the program runs them, proved to compute what
    Kiss.dfy describes. */
module KissDecoder {
  import opened Common
  import opened CspV2
  import opened CspV2Packet
  import opened Crc32c
  import opened Kiss

  datatype EncodeError = PacketTooLong

  /** Encode one packet as the exact frame a libcsp node would send. */
  method EncodeKissFrame(fields: CspFields, payload: bytes, maxPacketBytes: nat) returns (r: Result<bytes, EncodeError>)
    ensures r == if |payload| + CRC32_BYTES > maxPacketBytes then Err(PacketTooLong)
                 else Ok(Frame(Content(fields, payload)))
  {
    hide PackHeader, ToBytes4, Crc, Escape;
    if |payload| + CRC32_BYTES > maxPacketBytes {
      return Err(PacketTooLong);
    }
    var crc := Crc32c.Crc32c(payload);
    var packet := PackHeader(fields) + payload + ToBytes4(crc);
    var out := [FEND, TNC_DATA];
    EscapeNothing();
    assert packet[..0] == [];
    for i := 0 to |packet|
      invariant out == [FEND, TNC_DATA] + Escape(packet[..i])
    {
      assert packet[..i + 1] == packet[..i] + [packet[i]];
      EscapeSnoc(packet[..i], packet[i]);
      if packet[i] == FEND {
        out := out + [FESC, TFEND];
      } else if packet[i] == FESC {
        out := out + [FESC, TFESC];
      } else {
        out := out + [packet[i]];
      }
    }
    assert packet[..|packet|] == packet;
    out := out + [FEND];
    r := Ok(out);
  }

  class KissDecoder {
    const maxPacketBytes: nat
    var mode: Mode
    var first: bool
    var buffer: bytes
    var wire: bytes

    ghost function View(): State
      reads this
    {
      State(mode, first, buffer, wire)
    }

    constructor (maxPacketBytes: nat)
      ensures this.maxPacketBytes == maxPacketBytes && Idle(View()) && !InFrame()
    {
      this.maxPacketBytes := maxPacketBytes;
      mode, first, buffer, wire := NotStarted, false, [], [];
    }

    /** Whether a frame is partly received. */
    predicate InFrame()
      reads this
    {
      mode != NotStarted
    }

    method ResetFrame()
      modifies this
      ensures mode == NotStarted && first == old(first) && buffer == [] && wire == []
      ensures View() == Reset(old(View()))
    {
      mode, buffer, wire := NotStarted, [], [];
    }

    /** What the finished frame in the buffer amounts to. */
    method Complete() returns (e: KissEvent)
      ensures e == Judge(buffer, wire)
    {
      hide UnpackHeader, FromBytes4, HasFragmentFlag, Crc;
      var n := |buffer|;
      if n < HEADER_BYTES + CRC32_BYTES {
        return Dropped(TooShort, wire, None, None);
      }
      var header, body, trailer := buffer[..HEADER_BYTES], buffer[HEADER_BYTES..n - CRC32_BYTES], buffer[n - CRC32_BYTES..];
      var fields := UnpackHeader(header);
      var received := FromBytes4(trailer);
      var whole := Crc32c.Crc32c(header + body);
      var bodyOnly := Crc32c.Crc32c(body);
      if received != whole && received != bodyOnly {
        return Dropped(CrcError, wire, Some(fields), None);
      }
      if HasFragmentFlag(fields) {
        return Dropped(Malformed, wire, Some(fields), None);
      }
      e := Packet(fields, body, wire);
    }

    /** Decode one byte. */
    method FeedByte(b: byte) returns (events: seq<KissEvent>)
      modifies this
      ensures Decoding(View(), events) == StepByte(maxPacketBytes, old(View()), b)
    {
      hide Judge;
      events := [];
      if mode != NotStarted && |buffer| >= maxPacketBytes + HEADER_BYTES {
        events := [Dropped(Overflow, wire, None, Some(maxPacketBytes))];
        ResetFrame();
      }
      if mode == NotStarted {
        if b == FEND {
          mode, first, buffer, wire := Started, true, [], [FEND];
        }
        return;
      }
      wire := wire + [b];
      if mode == Started {
        if b == FESC {
          mode := Escaped;
        } else if b == FEND {
          if buffer != [] {
            var e := Complete();
            events := events + [e];
            ResetFrame();
          }
        } else if first {
          first := false;
        } else {
          buffer := buffer + [b];
        }
      } else {
        if b == TFESC {
          buffer := buffer + [FESC];
        } else if b == TFEND {
          buffer := buffer + [FEND];
        }
        mode := Started;
      }
    }

    /** Decode the bytes that arrived, in any chunking. */
    method Feed(data: bytes) returns (events: seq<KissEvent>)
      modifies this
      ensures Decoding(View(), events) == Decode(maxPacketBytes, old(View()), data)
    {
      hide StepByte, Decode;
      events := [];
      DecodeNone(maxPacketBytes, View());
      assert data[..0] == [];
      for i := 0 to |data|
        invariant Decoding(View(), events) == Decode(maxPacketBytes, old(View()), data[..i])
      {
        var more := FeedByte(data[i]);
        events := events + more;
        DecodeSnoc(maxPacketBytes, old(View()), data[..i], data[i]);
        assert data[..i + 1] == data[..i] + [data[i]];
      }
      assert data[..|data|] == data;
    }
  }
}
