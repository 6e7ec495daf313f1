/** The 48-bit CSP v2 header that links carrying whole packets share. */
module CspV2Packet {
  import opened Common
  import opened CspV2

  const HEADER_BYTES: nat := 6

  function HeaderBits(f: CspFields): bv48 {
    ((f.priority as bv48) << 46) | ((f.destination as bv48) << 32) | ((f.source as bv48) << 18)
    | ((f.destinationPort as bv48) << 12) | ((f.sourcePort as bv48) << 6) | (f.flags as bv48)
  }

  function HeaderFields(v: bv48): CspFields {
    CspFields(
      ((v >> 46) & 0x3) as bv2, ((v >> 18) & 0x3FFF) as bv14, ((v >> 32) & 0x3FFF) as bv14,
      ((v >> 12) & 0x3F) as bv6, ((v >> 6) & 0x3F) as bv6, (v & 0x3F) as bv6)
  }

  lemma HeaderBijection(v: bv48, f: CspFields)
    ensures HeaderFields(v) == f <==> HeaderBits(f) == v
  {
    assert HeaderBits(HeaderFields(v)) == v;
    assert HeaderFields(HeaderBits(f)) == f;
  }

  /** Six bytes, most significant first. */
  function ToBytes6(v: bv48): (s: bytes)
    ensures |s| == 6
  {
    [((v >> 40) & 0xFF) as bv8, ((v >> 32) & 0xFF) as bv8, ((v >> 24) & 0xFF) as bv8,
     ((v >> 16) & 0xFF) as bv8, ((v >> 8) & 0xFF) as bv8, (v & 0xFF) as bv8]
  }

  function FromBytes6(s: bytes): bv48
    requires |s| == 6
  {
    ((s[0] as bv48) << 40) | ((s[1] as bv48) << 32) | ((s[2] as bv48) << 24)
    | ((s[3] as bv48) << 16) | ((s[4] as bv48) << 8) | (s[5] as bv48)
  }

  lemma Bytes6Bijection(v: bv48, s: bytes)
    requires |s| == 6
    ensures FromBytes6(s) == v <==> ToBytes6(v) == s
  {
    assert ToBytes6(FromBytes6(s)) == s;
    assert FromBytes6(ToBytes6(v)) == v;
  }

  function PackHeader(f: CspFields): (s: bytes)
    ensures |s| == HEADER_BYTES
  {
    ToBytes6(HeaderBits(f))
  }

  function UnpackHeader(s: bytes): CspFields
    requires |s| == HEADER_BYTES
  {
    HeaderFields(FromBytes6(s))
  }

  /** A header is the sum of priority, destination, source, destination port, source port
      and flags by weight, written most significant byte first. */
  lemma HeaderByWeight(f: CspFields)
    ensures HeaderBits(f) ==
      f.priority as bv48 * 0x4000_0000_0000 + f.destination as bv48 * 0x1_0000_0000 + f.source as bv48 * 0x4_0000
      + f.destinationPort as bv48 * 0x1000 + f.sourcePort as bv48 * 0x40 + f.flags as bv48
    ensures var s := PackHeader(f);
      HeaderBits(f) == s[0] as bv48 * 0x100_0000_0000 + s[1] as bv48 * 0x1_0000_0000 + s[2] as bv48 * 0x100_0000
        + s[3] as bv48 * 0x1_0000 + s[4] as bv48 * 0x100 + s[5] as bv48
  {
    hide HeaderBits, ToBytes6;
    HeaderSum(f);
    SixByWeight(HeaderBits(f));
  }

  lemma HeaderSum(f: CspFields)
    ensures HeaderBits(f) ==
      f.priority as bv48 * 0x4000_0000_0000 + f.destination as bv48 * 0x1_0000_0000 + f.source as bv48 * 0x4_0000
      + f.destinationPort as bv48 * 0x1000 + f.sourcePort as bv48 * 0x40 + f.flags as bv48
  {
    SixFields(f.priority as bv48, f.destination as bv48, f.source as bv48, f.destinationPort as bv48, f.sourcePort as bv48, f.flags as bv48);
  }

  lemma SixFields(a: bv48, b: bv48, c: bv48, d: bv48, e: bv48, g: bv48)
    requires a < 4 && b < 0x4000 && c < 0x4000 && d < 0x40 && e < 0x40 && g < 0x40
    ensures (a << 46) | (b << 32) | (c << 18) | (d << 12) | (e << 6) | g
      == a * 0x4000_0000_0000 + b * 0x1_0000_0000 + c * 0x4_0000 + d * 0x1000 + e * 0x40 + g
  {
  }

  lemma SixByWeight(v: bv48)
    ensures var s := ToBytes6(v);
      v == s[0] as bv48 * 0x100_0000_0000 + s[1] as bv48 * 0x1_0000_0000 + s[2] as bv48 * 0x100_0000
        + s[3] as bv48 * 0x1_0000 + s[4] as bv48 * 0x100 + s[5] as bv48
  {
  }

  /** Every six bytes are the header of exactly one choice of fields. */
  lemma PackHeaderBijection(s: bytes, f: CspFields)
    requires |s| == HEADER_BYTES
    ensures UnpackHeader(s) == f <==> PackHeader(f) == s
  {
    hide HeaderBits, HeaderFields, ToBytes6, FromBytes6;
    HeaderBijection(FromBytes6(s), f);
    Bytes6Bijection(HeaderBits(f), s);
  }

  /** The header is the top 16 bits of the packet's CAN identifier, followed by its
      header extension, whatever the other identifier fields are. */
  lemma HeaderIsIdentifierThenExtension(f: CspFields, id: CanIdFields)
    requires id.priority == f.priority && id.destination == f.destination
    ensures HeaderBits(f) == (((PackCanId(id) >> 13) as bv48) << 32) | (PackHeaderExtension(f) as bv48)
    ensures PackHeader(f)[2..] == ToBytes4(PackHeaderExtension(f))
  {
    LowBytes(f);
  }

  lemma LowBytes(f: CspFields)
    ensures PackHeader(f)[2..] == ToBytes4(PackHeaderExtension(f))
  {
    var s := PackHeader(f);
    assert s[2..] == [s[2], s[3], s[4], s[5]];
  }
}
