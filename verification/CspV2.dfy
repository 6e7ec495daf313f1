/** CSP v2 packets over classic CAN: the identifier and header layouts, the
    one-frame codec, and CFP2 fragmentation. */
module CspV2 {
  import opened Common

  const CLASSIC_CAN_MAX_DATA_BYTES: nat := 8
  const HEADER_EXTENSION_BYTES: nat := 4
  const SINGLE_FRAME_MAX_PAYLOAD_BYTES: nat := 4
  const CONTINUATION_PAYLOAD_BYTES: nat := 8
  const CSP_FLAG_FRAGMENT: bv6 := 0x10

  /** The widths of the fields are the ranges the program validates. */
  datatype CspFields = CspFields(
    priority: bv2, source: bv14, destination: bv14,
    destinationPort: bv6, sourcePort: bv6, flags: bv6)

  datatype CanIdFields = CanIdFields(
    priority: bv2, destination: bv14, sender: bv6,
    packetCount: bv2, frameCount: bv3, begin: bool, end: bool)

  datatype CanFrame = CanFrame(canId: bv29, data: bytes, isExtendedId: bool)

  /** What the frame constructor checks. */
  predicate ValidFrame(f: CanFrame) {
    |f.data| <= CLASSIC_CAN_MAX_DATA_BYTES && (f.isExtendedId || f.canId <= 0x7FF)
  }

  datatype DecodedPacket = DecodedPacket(
    fields: CspFields, payload: bytes, frame: CanFrame,
    canFields: CanIdFields, frames: seq<CanFrame>)

  datatype CspError =
    | StandardIdentifier | ShortHeader | NotFirstFrame | NotLastFrame
    | NonzeroFrameCount | FragmentFlag | PayloadTooLong | OverSenderLimit

  // ---- Bit layouts ----

  function Bit(b: bool): bv29 { if b then 1 else 0 }

  function PackCanId(f: CanIdFields): bv29 {
    ((f.priority as bv29) << 27) | ((f.destination as bv29) << 13) | ((f.sender as bv29) << 7)
    | ((f.packetCount as bv29) << 5) | ((f.frameCount as bv29) << 2)
    | (Bit(f.begin) << 1) | Bit(f.end)
  }

  function UnpackCanId(id: bv29): CanIdFields {
    CanIdFields(
      ((id >> 27) & 0x3) as bv2, ((id >> 13) & 0x3FFF) as bv14, ((id >> 7) & 0x3F) as bv6,
      ((id >> 5) & 0x3) as bv2, ((id >> 2) & 0x7) as bv3, (id >> 1) & 1 != 0, id & 1 != 0)
  }

  function PackHeaderExtension(f: CspFields): bv32 {
    ((f.source as bv32) << 18) | ((f.destinationPort as bv32) << 12)
    | ((f.sourcePort as bv32) << 6) | (f.flags as bv32)
  }

  function UnpackHeaderExtension(x: bv32, priority: bv2, destination: bv14): CspFields {
    CspFields(
      priority, ((x >> 18) & 0x3FFF) as bv14, destination,
      ((x >> 12) & 0x3F) as bv6, ((x >> 6) & 0x3F) as bv6, (x & 0x3F) as bv6)
  }

  /** Four bytes, most significant first. */
  function ToBytes4(x: bv32): (s: bytes)
    ensures |s| == 4
  {
    [((x >> 24) & 0xFF) as bv8, ((x >> 16) & 0xFF) as bv8, ((x >> 8) & 0xFF) as bv8, (x & 0xFF) as bv8]
  }

  function FromBytes4(s: bytes): bv32
    requires |s| == 4
  {
    ((s[0] as bv32) << 24) | ((s[1] as bv32) << 16) | ((s[2] as bv32) << 8) | (s[3] as bv32)
  }

  /** Every identifier denotes exactly one choice of the seven fields, and back. */
  lemma CanIdBijection(id: bv29, f: CanIdFields)
    ensures UnpackCanId(id) == f <==> PackCanId(f) == id
  {
    assert PackCanId(UnpackCanId(id)) == id;
    assert UnpackCanId(PackCanId(f)) == f;
  }

  /** Every extension denotes exactly one choice of the four fields it carries. */
  lemma HeaderExtensionBijection(x: bv32, h: CspFields)
    ensures UnpackHeaderExtension(x, h.priority, h.destination) == h <==> PackHeaderExtension(h) == x
  {
    assert PackHeaderExtension(UnpackHeaderExtension(x, h.priority, h.destination)) == x;
    assert UnpackHeaderExtension(PackHeaderExtension(h), h.priority, h.destination) == h;
  }

  lemma Bytes4Bijection(x: bv32, s: bytes)
    requires |s| == 4
    ensures FromBytes4(s) == x <==> ToBytes4(x) == s
  {
    assert ToBytes4(FromBytes4(s)) == s;
    assert FromBytes4(ToBytes4(x)) == x;
  }

  // ---- The weights of the fields ----

  /** An identifier is the sum of its fields by weight: priority, destination, sender,
      packet counter, frame counter, begin and end, from the top bit down. */
  lemma IdentifierByWeight(f: CanIdFields)
    ensures PackCanId(f) ==
      f.priority as bv29 * 0x800_0000 + f.destination as bv29 * 0x2000 + f.sender as bv29 * 0x80
      + f.packetCount as bv29 * 0x20 + f.frameCount as bv29 * 4 + (if f.begin then 2 else 0) + (if f.end then 1 else 0)
  {
  }

  /** A header extension is the sum of source, destination port, source port and flags. */
  lemma ExtensionByWeight(priority: bv2, source: bv14, destination: bv14, destinationPort: bv6, sourcePort: bv6, flags: bv6)
    ensures PackHeaderExtension(CspFields(priority, source, destination, destinationPort, sourcePort, flags)) ==
      source as bv32 * 0x4_0000 + destinationPort as bv32 * 0x1000 + sourcePort as bv32 * 0x40 + flags as bv32
  {
  }

  /** A word is written most significant byte first. */
  lemma WordByWeight(x: bv32)
    ensures var s := ToBytes4(x);
      x == s[0] as bv32 * 0x100_0000 + s[1] as bv32 * 0x1_0000 + s[2] as bv32 * 0x100 + s[3] as bv32
  {
  }

  /** The header extension of a first frame. */
  function ExtensionOf(f: CanFrame): bv32
    requires |f.data| >= HEADER_EXTENSION_BYTES
  {
    FromBytes4(f.data[..HEADER_EXTENSION_BYTES])
  }

  predicate HasFragmentFlag(f: CspFields) { f.flags & CSP_FLAG_FRAGMENT != 0 }

  // ---- One packet in one frame ----

  function SenderOf(fields: CspFields, sender: Option<bv6>): bv6 {
    if sender.None? then (fields.source & 0x3F) as bv6 else sender.value
  }

  function Pack(fields: CspFields, payload: bytes, sender: Option<bv6>, packetCount: bv2): Result<CanFrame, CspError> {
    if HasFragmentFlag(fields) then Err(FragmentFlag)
    else if |payload| > SINGLE_FRAME_MAX_PAYLOAD_BYTES then Err(PayloadTooLong)
    else
      var id := CanIdFields(fields.priority, fields.destination, SenderOf(fields, sender), packetCount, 0, true, true);
      Ok(CanFrame(PackCanId(id), ToBytes4(PackHeaderExtension(fields)) + payload, true))
  }

  function DecodeFrame(frame: CanFrame): Result<DecodedPacket, CspError> {
    if !frame.isExtendedId then Err(StandardIdentifier)
    else if |frame.data| < HEADER_EXTENSION_BYTES then Err(ShortHeader)
    else
      var c := UnpackCanId(frame.canId);
      if !c.begin then Err(NotFirstFrame)
      else if !c.end then Err(NotLastFrame)
      else if c.frameCount != 0 then Err(NonzeroFrameCount)
      else
        var fields := UnpackHeaderExtension(ExtensionOf(frame), c.priority, c.destination);
        if HasFragmentFlag(fields) then Err(FragmentFlag)
        else Ok(DecodedPacket(fields, frame.data[HEADER_EXTENSION_BYTES..], frame, c, [frame]))
  }

  function DecodeFirstFrameHeader(frame: CanFrame): Result<CspFields, CspError> {
    if !frame.isExtendedId then Err(StandardIdentifier)
    else
      var c := UnpackCanId(frame.canId);
      if !c.begin then Err(NotFirstFrame)
      else if |frame.data| < HEADER_EXTENSION_BYTES then Err(ShortHeader)
      else Ok(UnpackHeaderExtension(ExtensionOf(frame), c.priority, c.destination))
  }

  /** Decoding inverts packing, and packing inverts decoding. */
  lemma PackDecodeInverse(fields: CspFields, payload: bytes, sender: Option<bv6>, packetCount: bv2, frame: CanFrame)
    ensures Pack(fields, payload, sender, packetCount) == Ok(frame) ==>
      && DecodeFrame(frame).Ok?
      && var d := DecodeFrame(frame).value;
         d.fields == fields && d.payload == payload && d.frames == [frame]
         && d.canFields.sender == SenderOf(fields, sender) && d.canFields.packetCount == packetCount
    ensures ValidFrame(frame) && DecodeFrame(frame).Ok? ==>
      var d := DecodeFrame(frame).value;
      Pack(d.fields, d.payload, Some(d.canFields.sender), d.canFields.packetCount) == Ok(frame)
  {
    hide PackCanId, UnpackCanId, PackHeaderExtension, ToBytes4, FromBytes4, HasFragmentFlag;
    if Pack(fields, payload, sender, packetCount) == Ok(frame) {
      var id := CanIdFields(fields.priority, fields.destination, SenderOf(fields, sender), packetCount, 0, true, true);
      CanIdBijection(frame.canId, id);
      HeaderExtensionBijection(PackHeaderExtension(fields), fields);
      Bytes4Bijection(PackHeaderExtension(fields), frame.data[..4]);
      assert frame.data[..4] == ToBytes4(PackHeaderExtension(fields));
      assert frame.data[4..] == payload;
    }
    if ValidFrame(frame) && DecodeFrame(frame).Ok? {
      var d := DecodeFrame(frame).value;
      CanIdBijection(frame.canId, d.canFields);
      HeaderExtensionBijection(ExtensionOf(frame), d.fields);
      Bytes4Bijection(ExtensionOf(frame), frame.data[..4]);
      assert frame.data == frame.data[..4] + frame.data[4..];
    }
  }

  // ---- Fragmentation ----

  /** How many frames carry a payload of `n` bytes. */
  function FrameTotal(n: nat): nat { (n + 3) / 8 + 1 }

  /** The payload bytes carried by the first `i` frames. */
  function Carried(n: nat, i: nat): nat {
    if i == 0 then 0 else if 8 * i - 4 < n then 8 * i - 4 else n
  }

  /** The payload bytes of frame `i`. */
  function Chunk(payload: bytes, i: nat): bytes {
    payload[Carried(|payload|, i)..Carried(|payload|, i + 1)]
  }

  /** The 3-bit frame counter of frame `i`. */
  function FrameCounter(i: nat): bv3 { (i % 8) as bv3 }

  lemma FrameCounterStep(i: nat)
    ensures FrameCounter(i + 1) == FrameCounter(i) + 1
    ensures FrameCounter(0) == 0 && FrameCounter(1) == 1
  {
  }

  lemma FrameCounterAgree(i: nat, j: nat)
    ensures FrameCounter(i) == FrameCounter(j) <==> i % 8 == j % 8
  {
  }

  lemma FrameCounterIsNumber(i: nat)
    ensures FrameCounter(i) as int == i % 8
  {
  }

  function Fragment(fields: CspFields, payload: bytes, sender: bv6, packetCount: bv2, i: nat): (f: CanFrame)
    requires i < FrameTotal(|payload|)
    ensures f.isExtendedId && ValidFrame(f)
    ensures UnpackCanId(f.canId) == CanIdFields(
      fields.priority, fields.destination, sender, packetCount, FrameCounter(i),
      i == 0, i == FrameTotal(|payload|) - 1)
    ensures if i == 0
      then |f.data| >= 4 && ExtensionOf(f) == PackHeaderExtension(fields) && f.data[4..] == Chunk(payload, 0)
      else f.data == Chunk(payload, i)
  {
    var id := CanIdFields(fields.priority, fields.destination, sender, packetCount,
      FrameCounter(i), i == 0, i == FrameTotal(|payload|) - 1);
    var header := ToBytes4(PackHeaderExtension(fields));
    CanIdBijection(PackCanId(id), id);
    Bytes4Bijection(PackHeaderExtension(fields), header);
    assert (header + Chunk(payload, 0))[..4] == header;
    assert (header + Chunk(payload, 0))[4..] == Chunk(payload, 0);
    CanFrame(PackCanId(id), if i == 0 then header + Chunk(payload, 0) else Chunk(payload, i), true)
  }

  /** The frames of one packet, in sending order. */
  function Fragments(fields: CspFields, payload: bytes, sender: bv6, packetCount: bv2): (frames: seq<CanFrame>)
    ensures |frames| == FrameTotal(|payload|)
    ensures forall i :: 0 <= i < |frames| ==> frames[i] == Fragment(fields, payload, sender, packetCount, i)
  {
    seq(FrameTotal(|payload|), i requires 0 <= i < FrameTotal(|payload|) =>
      Fragment(fields, payload, sender, packetCount, i))
  }

  /** A packet that fits one frame is the frame `Pack` builds. */
  lemma OneFrameIsPack(fields: CspFields, payload: bytes, sender: Option<bv6>, packetCount: bv2)
    requires !HasFragmentFlag(fields)
    ensures Pack(fields, payload, sender, packetCount).Ok? <==> FrameTotal(|payload|) == 1
    ensures FrameTotal(|payload|) == 1 ==>
      Fragments(fields, payload, SenderOf(fields, sender), packetCount)
      == [Pack(fields, payload, sender, packetCount).value]
  {
    if FrameTotal(|payload|) == 1 {
      assert Chunk(payload, 0) == payload;
    }
  }

  /** Cut a packet into frame contents: the header and up to four payload bytes,
      then up to eight payload bytes at a time. */
  method SplitPacket(header: bytes, payload: bytes) returns (chunks: seq<bytes>)
    ensures |chunks| == FrameTotal(|payload|)
    ensures chunks[0] == header + Chunk(payload, 0)
    ensures forall i :: 0 < i < |chunks| ==> chunks[i] == Chunk(payload, i)
  {
    var first := payload[..if |payload| < SINGLE_FRAME_MAX_PAYLOAD_BYTES then |payload| else SINGLE_FRAME_MAX_PAYLOAD_BYTES];
    var rest := payload[|first|..];
    chunks := [header + first];
    assert first == Chunk(payload, 0);
    var offset := 0;
    while offset < |rest|
      invariant offset == 8 * (|chunks| - 1) && offset < |rest| + 8
      invariant |chunks| <= FrameTotal(|payload|)
      invariant chunks[0] == header + Chunk(payload, 0)
      invariant forall i :: 0 < i < |chunks| ==> chunks[i] == Chunk(payload, i)
    {
      var stop := if offset + CONTINUATION_PAYLOAD_BYTES < |rest| then offset + CONTINUATION_PAYLOAD_BYTES else |rest|;
      assert rest[offset..stop] == Chunk(payload, |chunks|);
      chunks := chunks + [rest[offset..stop]];
      offset := offset + CONTINUATION_PAYLOAD_BYTES;
    }
  }

  /** Split one packet into the CAN frames that carry it. */
  method FragmentPacket(fields: CspFields, payload: bytes, sender: Option<bv6>, packetCount: bv2)
    returns (r: Result<seq<CanFrame>, CspError>)
    ensures r == if HasFragmentFlag(fields) then Err(FragmentFlag)
                 else Ok(Fragments(fields, payload, SenderOf(fields, sender), packetCount))
  {
    if HasFragmentFlag(fields) {
      return Err(FragmentFlag);
    }
    var chunks := SplitPacket(ToBytes4(PackHeaderExtension(fields)), payload);
    var frames := [];
    for index := 0 to |chunks|
      invariant |frames| == index
      invariant forall i :: 0 <= i < index ==>
        frames[i] == Fragment(fields, payload, SenderOf(fields, sender), packetCount, i)
    {
      var counter := if index != 0 then (index % 8) as bv3 else 0;
      assert counter == FrameCounter(index);
      var id := CanIdFields(fields.priority, fields.destination, SenderOf(fields, sender), packetCount,
        counter, index == 0, index == |chunks| - 1);
      frames := frames + [CanFrame(PackCanId(id), chunks[index], true)];
    }
    assert frames == Fragments(fields, payload, SenderOf(fields, sender), packetCount);
    r := Ok(frames);
  }

  /** The chunks of the first `m` frames are a prefix of the payload. */
  lemma CarriedPrefix(payload: bytes, m: nat)
    requires 1 <= m <= FrameTotal(|payload|)
    ensures payload[..Carried(|payload|, m - 1)] + Chunk(payload, m - 1) == payload[..Carried(|payload|, m)]
    ensures m == FrameTotal(|payload|) ==> Carried(|payload|, m) == |payload|
  {
  }
}
