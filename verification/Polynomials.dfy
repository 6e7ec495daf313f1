/** The checksum as a remainder: CRC-32C is long division of the message, as a polynomial
    over two elements, by the Castagnoli polynomial (section 12.1 of RFC 3720). */
module Polynomials {
  import opened Common
  import opened Crc32c

  /** Coefficients, highest power first. */
  type Polynomial = seq<bool>

  /** The powers of x in the Castagnoli polynomial. */
  const CASTAGNOLI: set<nat> := {32, 28, 27, 26, 25, 23, 22, 20, 19, 18, 14, 13, 11, 10, 9, 8, 6, 0}

  function Divisor(): (g: Polynomial)
    ensures |g| == 33 && forall k :: 0 <= k < 33 ==> g[k] == (32 - k in CASTAGNOLI)
  {
    seq(33, k requires 0 <= k < 33 => 32 - k in CASTAGNOLI)
  }

  /** `p` with `q` added to its leading coefficients. */
  function AddAtFront(p: Polynomial, q: Polynomial): (r: Polynomial)
    requires |q| <= |p|
    ensures |r| == |p|
    ensures forall i :: 0 <= i < |p| ==> r[i] == if i < |q| then p[i] != q[i] else p[i]
  {
    seq(|p|, i requires 0 <= i < |p| => if i < |q| then p[i] != q[i] else p[i])
  }

  /** Long division: the remainder of `p`. */
  function Remainder(p: Polynomial): (r: Polynomial)
    requires |p| >= 32
    ensures |r| == 32
    decreases |p|
  {
    if |p| == 32 then p
    else if p[0] then Remainder(AddAtFront(p, Divisor())[1..])
    else Remainder(p[1..])
  }

  predicate HasBit(b: byte, mask: byte) { b & mask != 0 }

  /** The bits of a byte, least significant first. */
  function ByteBits(b: byte): (p: Polynomial)
    ensures |p| == 8
  {
    [HasBit(b, 0x01), HasBit(b, 0x02), HasBit(b, 0x04), HasBit(b, 0x08),
     HasBit(b, 0x10), HasBit(b, 0x20), HasBit(b, 0x40), HasBit(b, 0x80)]
  }

  /** The message as a polynomial: byte by byte, each least significant bit first. */
  function MessageBits(data: bytes): Polynomial {
    if data == [] then [] else MessageBits(data[..|data| - 1]) + ByteBits(data[|data| - 1])
  }

  function Zeros(n: nat): (p: Polynomial)
    ensures |p| == n && forall i :: 0 <= i < n ==> !p[i]
  {
    seq(n, i => false)
  }

  function Ones(n: nat): (p: Polynomial)
    ensures |p| == n && forall i :: 0 <= i < n ==> p[i]
  {
    seq(n, i => true)
  }

  /** The checksum of a message: times x to the 32, its leading coefficients complemented,
      the remainder, and that complemented. */
  function ChecksumBits(data: bytes): (p: Polynomial)
    ensures |p| == 32
  {
    AddAtFront(Remainder(AddAtFront(MessageBits(data) + Zeros(32), Ones(32))), Ones(32))
  }

  // ---- Words as polynomials ----

  /** The low `n` bits of a word, least significant first. */
  function WordBits(v: word, n: nat): (p: Polynomial)
    ensures |p| == n
  {
    if n == 0 then [] else [LowBit(v) == 1] + WordBits(Half(v), n - 1)
  }

  lemma {:induction false} XorBits(a: word, b: word, n: nat)
    ensures WordBits(Xor(a, b), n) == AddAtFront(WordBits(a, n), WordBits(b, n))
    decreases n
  {
    hide Xor, LowBit, Half;
    if n > 0 {
      LowBitOfXor(a, b);
      PartsAreLinear(a, b);
      XorBits(Half(a), Half(b), n - 1);
      AddOneMore(LowBit(a) == 1, WordBits(Half(a), n - 1), LowBit(b) == 1, WordBits(Half(b), n - 1));
    }
  }

  lemma AddOneMore(a: bool, p: Polynomial, b: bool, q: Polynomial)
    requires |p| == |q|
    ensures AddAtFront([a] + p, [b] + q) == [a != b] + AddAtFront(p, q)
  {
  }

  lemma LowBitOfXor(a: word, b: word)
    ensures (LowBit(Xor(a, b)) == 1) == ((LowBit(a) == 1) != (LowBit(b) == 1))
  {
    LowBitIsLinear(a, b);
    OneBitXor(a & 1, b & 1);
  }

  lemma LowBitIsLinear(a: word, b: word)
    ensures (a ^ b) & 1 == (a & 1) ^ (b & 1) && (a & 1) <= 1 && (b & 1) <= 1
  {
  }

  lemma OneBitXor(x: word, y: word)
    requires x <= 1 && y <= 1
    ensures (x ^ y == 1) == ((x == 1) != (y == 1))
  {
  }

  lemma {:induction false} BitsSplit(v: word, m: nat, n: nat)
    ensures WordBits(v, m + n) == WordBits(v, m) + WordBits(ShiftedOut(v, m), n)
    decreases m
  {
    hide LowBit, Half;
    if m > 0 {
      BitsSplit(Half(v), m - 1, n);
    }
  }

  lemma {:induction false} ShiftedOutTwice(x: word, m: nat, n: nat)
    ensures ShiftedOut(ShiftedOut(x, m), n) == ShiftedOut(x, m + n)
    decreases m
  {
    hide Half;
    if m > 0 {
      ShiftedOutTwice(Half(x), m - 1, n);
    }
  }

  lemma NothingLeft(v: word)
    ensures ShiftedOut(v, 32) == 0
  {
    hide ShiftedOut, DropByte;
    ShiftedOutByte(v);
    ShiftedOutByte(DropByte(v));
    ShiftedOutByte(DropByte(DropByte(v)));
    ShiftedOutByte(DropByte(DropByte(DropByte(v))));
    ShiftedOutTwice(v, 8, 8);
    ShiftedOutTwice(v, 16, 8);
    ShiftedOutTwice(v, 24, 8);
    FourBytesDropped(v);
  }

  lemma FourBytesDropped(v: word)
    ensures DropByte(DropByte(DropByte(DropByte(v)))) == 0
  {
  }

  lemma ZeroBit()
    ensures LowBit(0) != 1
  {
  }

  lemma OneMoreBit(v: word, n: nat)
    ensures WordBits(v, n + 1) == [LowBit(v) == 1] + WordBits(Half(v), n)
  {
    hide LowBit, Half;
  }

  /** Halving drops the first bit and brings in a zero. */
  lemma HalfBits(v: word)
    ensures WordBits(Half(v), 32) == WordBits(v, 32)[1..] + [false]
  {
    hide ShiftedOut, LowBit, Half, WordBits;
    BitsSplit(v, 32, 1);
    NothingLeft(v);
    ZeroBit();
    OneMoreBit(0, 0);
    OneMoreBit(v, 32);
    assert WordBits(Half(0), 0) == [];
    assert WordBits(v, 33)[1..] == WordBits(Half(v), 32);
    assert (WordBits(v, 32) + [false])[1..] == WordBits(v, 32)[1..] + [false];
  }

  // ---- A byte at a time ----

  function FirstByte(v: word): byte { (v & 0xFF) as byte }

  lemma FirstBits(v: word)
    ensures var b := FirstByte(v);
      && (LowBit(v) == 1) == HasBit(b, 0x01) && (LowBit(Half(v)) == 1) == HasBit(b, 0x02)
      && (LowBit(Half(Half(v))) == 1) == HasBit(b, 0x04) && (LowBit(Half(Half(Half(v)))) == 1) == HasBit(b, 0x08)
  {
  }

  lemma LastBits(v: word)
    ensures var b := FirstByte(v); var u := Half(Half(Half(Half(v))));
      && (LowBit(u) == 1) == HasBit(b, 0x10) && (LowBit(Half(u)) == 1) == HasBit(b, 0x20)
      && (LowBit(Half(Half(u))) == 1) == HasBit(b, 0x40) && (LowBit(Half(Half(Half(u)))) == 1) == HasBit(b, 0x80)
  {
  }

  function Nibble(v: word): Polynomial {
    [LowBit(v) == 1, LowBit(Half(v)) == 1, LowBit(Half(Half(v))) == 1, LowBit(Half(Half(Half(v)))) == 1]
  }

  function DropNibble(v: word): word { Half(Half(Half(Half(v)))) }

  lemma FourBits(v: word, n: nat)
    ensures WordBits(v, n + 4) == Nibble(v) + WordBits(DropNibble(v), n)
  {
    hide LowBit, Half, WordBits;
    OneMoreBit(v, n + 3);
    OneMoreBit(Half(v), n + 2);
    OneMoreBit(Half(Half(v)), n + 1);
    OneMoreBit(Half(Half(Half(v))), n);
  }

  function LowNibble(b: byte): Polynomial { [HasBit(b, 0x01), HasBit(b, 0x02), HasBit(b, 0x04), HasBit(b, 0x08)] }

  function HighNibble(b: byte): Polynomial { [HasBit(b, 0x10), HasBit(b, 0x20), HasBit(b, 0x40), HasBit(b, 0x80)] }

  lemma NibblesOfByte(b: byte)
    ensures ByteBits(b) == LowNibble(b) + HighNibble(b)
  {
    hide HasBit;
  }

  lemma FirstNibble(v: word)
    ensures Nibble(v) == LowNibble(FirstByte(v))
  {
    hide LowBit, Half, HasBit, FirstByte;
    FirstBits(v);
  }

  lemma LastNibble(v: word)
    ensures Nibble(DropNibble(v)) == HighNibble(FirstByte(v))
  {
    hide LowBit, Half, HasBit, FirstByte;
    LastBits(v);
  }

  lemma Nibbles(v: word)
    ensures ByteBits(FirstByte(v)) == Nibble(v) + Nibble(DropNibble(v))
  {
    hide Nibble, DropNibble, LowNibble, HighNibble, ByteBits, FirstByte;
    FirstNibble(v);
    LastNibble(v);
    NibblesOfByte(FirstByte(v));
  }

  lemma TwoNibbles(v: word)
    ensures DropNibble(DropNibble(v)) == DropByte(v)
  {
    hide Half, DropByte;
    HalvingBytes(v);
  }

  /** Eight bits at a time. */
  lemma EightBits(v: word, n: nat)
    ensures WordBits(v, n + 8) == ByteBits(FirstByte(v)) + WordBits(DropByte(v), n)
  {
    hide WordBits, DropByte, FirstByte, ByteBits, Nibble, DropNibble;
    FourBits(v, n + 4);
    FourBits(DropNibble(v), n);
    TwoNibbles(v);
    Nibbles(v);
  }

  lemma FourBytes(v: word)
    ensures WordBits(v, 32) == ByteBits(FirstByte(v)) + ByteBits(FirstByte(DropByte(v)))
      + ByteBits(FirstByte(DropByte(DropByte(v)))) + ByteBits(FirstByte(DropByte(DropByte(DropByte(v)))))
  {
    hide WordBits, DropByte, ByteBits, FirstByte;
    EightBits(v, 24);
    EightBits(DropByte(v), 16);
    EightBits(DropByte(DropByte(v)), 8);
    EightBits(DropByte(DropByte(DropByte(v))), 0);
    assert WordBits(DropByte(DropByte(DropByte(DropByte(v)))), 0) == [];
  }

  /** The constant of the program is the Castagnoli polynomial, reflected. */
  lemma PolynomialIsCastagnoli()
    ensures WordBits(POLYNOMIAL, 32) == Divisor()[1..]
  {
    hide WordBits;
    FourBytes(POLYNOMIAL);
    assert DropByte(POLYNOMIAL) == 0x82F63B && DropByte(0x82F63B) == 0x82F6 && DropByte(0x82F6) == 0x82;
    assert ByteBits(0x78) == [false, false, false, true, true, true, true, false];
    assert ByteBits(0x3B) == [true, true, false, true, true, true, false, false];
    assert ByteBits(0xF6) == [false, true, true, false, true, true, true, true];
    assert ByteBits(0x82) == [false, true, false, false, false, false, false, true];
  }

  lemma AllOnesBits()
    ensures WordBits(ALL_ONES, 32) == Ones(32)
  {
    hide WordBits;
    FourBytes(ALL_ONES);
    assert DropByte(ALL_ONES) == 0xFFFFFF && DropByte(0xFFFFFF) == 0xFFFF && DropByte(0xFFFF) == 0xFF;
    assert ByteBits(0xFF) == Ones(8);
  }

  lemma OneBits(b: bool)
    ensures WordBits(if b then 1 else 0, 32) == [b] + Zeros(31)
  {
    hide WordBits;
    var v: word := if b then 1 else 0;
    FourBytes(v);
    assert DropByte(v) == 0 && DropByte(0) == 0;
    assert ByteBits(0) == Zeros(8) && ByteBits(1) == [true] + Zeros(7);
  }

  // ---- The register divides ----

  /** The register after single bits. */
  function FeedList(v: word, bits: Polynomial): word
    decreases |bits|
  {
    if bits == [] then v else FeedList(ShiftStep(Xor(v, if bits[0] then 1 else 0)), bits[1..])
  }

  lemma {:induction false} FeedBitsIsList(v: word, x: word, n: nat)
    ensures FeedBits(v, x, n) == FeedList(v, WordBits(x, n))
    decreases n
  {
    hide Xor, Half, ShiftStep;
    if n > 0 {
      LowBitIsBit(x);
      var next := ShiftStep(Xor(v, LowBit(x)));
      FeedBitsIsList(next, Half(x), n - 1);
      assert WordBits(x, n)[1..] == WordBits(Half(x), n - 1);
    }
  }

  lemma LowBitIsBit(x: word)
    ensures LowBit(x) == if LowBit(x) == 1 then 1 else 0
  {
  }

  lemma {:induction false} FeedListAppend(v: word, a: Polynomial, b: Polynomial)
    ensures FeedList(v, a + b) == FeedList(FeedList(v, a), b)
    decreases |a|
  {
    hide ShiftStep, Xor;
    if a == [] {
      assert a + b == b;
    } else {
      assert (a + b)[1..] == a[1..] + b;
      FeedListAppend(ShiftStep(Xor(v, if a[0] then 1 else 0)), a[1..], b);
    }
  }

  lemma FirstOfByte(b: byte)
    ensures FirstByte(FromByte(b)) == b
  {
  }

  lemma FeedByteIsList(v: word, b: byte)
    ensures FeedByte(v, b) == FeedList(v, ByteBits(b))
  {
    hide FeedBits, FeedList, WordBits, FirstByte, FromByte;
    FeedBitsIsList(v, FromByte(b), 8);
    EightBits(FromByte(b), 0);
    FirstOfByte(b);
    assert ByteBits(b) + WordBits(DropByte(FromByte(b)), 0) == ByteBits(b);
  }

  lemma {:induction false} RegisterIsList(v: word, data: bytes)
    ensures Register(v, data) == FeedList(v, MessageBits(data))
  {
    hide FeedByte, FeedList, ByteBits;
    if data == [] {
      NothingListed(v);
    } else {
      var n := |data| - 1;
      RegisterIsList(v, data[..n]);
      FeedByteIsList(Register(v, data[..n]), data[n]);
      FeedListAppend(v, MessageBits(data[..n]), ByteBits(data[n]));
    }
  }

  lemma NothingListed(v: word)
    ensures FeedList(v, []) == v
  {
  }

  /** The bits of the register after one message bit: those after the first, and a zero,
      with the divisor added if the first, together with the message bit, was set. */
  lemma NextBits(v: word, b: bool)
    ensures var w := WordBits(v, 32); var next := WordBits(ShiftStep(Xor(v, if b then 1 else 0)), 32);
      next == if w[0] != b then AddAtFront(w[1..] + [false], Divisor()[1..]) else w[1..] + [false]
  {
    hide WordBits, Xor, Half, ShiftStep, LowBit;
    var w := WordBits(v, 32);
    var u := Xor(v, if b then 1 else 0);
    OneBits(b);
    XorBits(v, if b then 1 else 0, 32);
    assert WordBits(u, 32)[0] == (w[0] != b);
    assert WordBits(u, 32)[1..] == w[1..];
    HalfBits(u);
    FirstBit(u);
    ShiftCases(u);
    XorBits(Half(u), POLYNOMIAL, 32);
    PolynomialIsCastagnoli();
  }

  lemma FirstBit(u: word)
    ensures WordBits(u, 32)[0] == (LowBit(u) == 1)
  {
    hide LowBit;
  }

  lemma ShiftCases(u: word)
    ensures ShiftStep(u) == if LowBit(u) == 1 then Xor(Half(u), POLYNOMIAL) else Half(u)
  {
  }

  /** Feeding bits to a register divides: the register is the remainder so far. */
  lemma {:induction false} RegisterDivides(v: word, bits: Polynomial)
    ensures WordBits(FeedList(v, bits), 32) == Remainder(AddAtFront(bits + Zeros(32), WordBits(v, 32)))
    decreases |bits|
  {
    hide WordBits, ShiftStep, Xor, Divisor, AddAtFront, Zeros;
    var w := WordBits(v, 32);
    var p := AddAtFront(bits + Zeros(32), w);
    if bits == [] {
      ZerosAddNothing(w);
    } else {
      var next := ShiftStep(Xor(v, if bits[0] then 1 else 0));
      RegisterDivides(next, bits[1..]);
      NextBits(v, bits[0]);
      OneDivision(bits, w, WordBits(next, 32));
    }
  }

  lemma ZerosAddNothing(w: Polynomial)
    requires |w| == 32
    ensures AddAtFront([] + Zeros(32), w) == w
  {
  }

  /** One step of the division, on the message bits not yet fed. */
  lemma OneDivision(bits: Polynomial, w: Polynomial, next: Polynomial)
    requires bits != [] && |w| == |next| == 32
    requires next == if w[0] != bits[0] then AddAtFront(w[1..] + [false], Divisor()[1..]) else w[1..] + [false]
    ensures var p := AddAtFront(bits + Zeros(32), w);
      (if p[0] then AddAtFront(p, Divisor())[1..] else p[1..]) == AddAtFront(bits[1..] + Zeros(32), next)
  {
    hide Divisor;
    var p := AddAtFront(bits + Zeros(32), w);
    var q := if p[0] then AddAtFront(p, Divisor())[1..] else p[1..];
    var rest := AddAtFront(bits[1..] + Zeros(32), next);
    var shifted := w[1..] + [false];
    forall i | 0 <= i < |rest| ensures q[i] == rest[i] {
      assert p[i + 1] == if i < 32 then (bits[1..] + Zeros(32))[i] != shifted[i] else (bits[1..] + Zeros(32))[i];
    }
  }

  /** The checksum is CRC-32C: the complemented remainder of the message, its first 32
      coefficients complemented, on division by the Castagnoli polynomial. */
  lemma ChecksumIsRemainder(data: bytes)
    ensures WordBits(Crc(data), 32) == ChecksumBits(data)
  {
    hide WordBits, Xor, Remainder, FeedList, MessageBits, Register;
    RegisterIsList(ALL_ONES, data);
    RegisterDivides(ALL_ONES, MessageBits(data));
    AllOnesBits();
    XorBits(Register(ALL_ONES, data), ALL_ONES, 32);
  }

  /** The nine digits of the check value. */
  const DIGITS: bytes := [0x31, 0x32, 0x33, 0x34, 0x35, 0x36, 0x37, 0x38, 0x39]

  /** The check value of CRC-32C, and the checksum of nothing. */
  lemma CheckValue()
    ensures Crc(DIGITS) == 0xE3069283 && Crc([]) == 0
  {
    hide FeedByte, Register;
    var data := DIGITS;
    FeedDigits();
    EmptyRegister();
    RegisterSnoc(ALL_ONES, data, 0);
    RegisterSnoc(ALL_ONES, data, 1);
    RegisterSnoc(ALL_ONES, data, 2);
    RegisterSnoc(ALL_ONES, data, 3);
    RegisterSnoc(ALL_ONES, data, 4);
    RegisterSnoc(ALL_ONES, data, 5);
    RegisterSnoc(ALL_ONES, data, 6);
    RegisterSnoc(ALL_ONES, data, 7);
    RegisterSnoc(ALL_ONES, data, 8);
    assert data[..9] == data && data[..0] == [];
  }

  lemma EmptyRegister()
    ensures Register(ALL_ONES, []) == ALL_ONES
  {
  }

  lemma FeedDigits()
    ensures FeedByte(0xFFFFFFFF, 0x31) == 0x6F0A661C
    ensures FeedByte(0x6F0A661C, 0x32) == 0x8CAA3B9F
    ensures FeedByte(0x8CAA3B9F, 0x33) == 0xEF84D04D
    ensures FeedByte(0xEF84D04D, 0x34) == 0x09C50B11
    ensures FeedByte(0x09C50B11, 0x35) == 0xE72EDCCA
    ensures FeedByte(0xE72EDCCA, 0x36) == 0xBECA8E79
    ensures FeedByte(0xBECA8E79, 0x37) == 0xEDBD6815
    ensures FeedByte(0xEDBD6815, 0x38) == 0x9F787F65
    ensures FeedByte(0x9F787F65, 0x39) == 0x1CF96D7C
  {
  }
}
