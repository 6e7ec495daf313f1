/** CRC-32C (section 12.1 of RFC 3720): the table-driven form against the bit-serial
    register, and the errors it always detects. */
module Crc32c {
  import opened Common

  type word = bv32

  /** The Castagnoli polynomial, bit-reversed. */
  const POLYNOMIAL: word := 0x82F63B78
  const ALL_ONES: word := 0xFFFFFFFF

  // Word operations by name, so that proofs can treat them as opaque.

  function Xor(a: word, b: word): word { a ^ b }

  function Half(v: word): word { v >> 1 }

  function LowBit(v: word): word { v & 1 }

  function LowByte(v: word): word { v & 0xFF }

  function DropByte(v: word): word { v >> 8 }

  function FromByte(b: byte): word { b as word }

  // ---- The reference: one message bit at a time ----

  /** One shift of the register. */
  function ShiftStep(v: word): word {
    if LowBit(v) == 1 then Xor(Half(v), POLYNOMIAL) else Half(v)
  }

  /** Feed the low `n` bits of `x`, least significant first. */
  function FeedBits(v: word, x: word, n: nat): word
    decreases n
  {
    if n == 0 then v else FeedBits(ShiftStep(Xor(v, LowBit(x))), Half(x), n - 1)
  }

  function FeedByte(v: word, b: byte): word {
    FeedBits(v, FromByte(b), 8)
  }

  /** The register after `data`, started at `v`. */
  function Register(v: word, data: bytes): word {
    if data == [] then v else FeedByte(Register(v, data[..|data| - 1]), data[|data| - 1])
  }

  function Crc(data: bytes): word {
    Xor(Register(ALL_ONES, data), ALL_ONES)
  }

  // ---- Shifting is linear and invertible ----

  function Steps(n: nat, v: word): word
    decreases n
  {
    if n == 0 then v else Steps(n - 1, ShiftStep(v))
  }

  lemma XorAssociates(a: word, b: word, c: word)
    ensures Xor(Xor(a, b), c) == Xor(a, Xor(b, c))
  {
  }

  lemma XorCommutes(a: word, b: word)
    ensures Xor(a, b) == Xor(b, a)
  {
  }

  lemma XorUnits(a: word)
    ensures Xor(a, 0) == a && Xor(a, a) == 0
  {
  }

  lemma XorSwaps(a: word, b: word, c: word, d: word)
    ensures Xor(Xor(a, b), Xor(c, d)) == Xor(Xor(a, c), Xor(b, d))
  {
    hide Xor;
    XorAssociates(a, b, Xor(c, d));
    XorAssociates(b, c, d);
    XorCommutes(b, c);
    XorAssociates(c, b, d);
    XorAssociates(a, c, Xor(b, d));
  }

  lemma XorCancels(a: word, b: word, c: word)
    ensures Xor(a, b) == Xor(a, c) <==> b == c
    ensures Xor(b, a) == Xor(c, a) <==> b == c
  {
    hide Xor;
    forall x | x == b || x == c ensures Xor(Xor(x, a), a) == x && Xor(a, x) == Xor(x, a) {
      XorAssociates(x, a, a);
      XorUnits(a);
      XorUnits(x);
      XorCommutes(a, x);
    }
  }

  /** What one shift feeds back. */
  function Feedback(v: word): word {
    if LowBit(v) == 1 then POLYNOMIAL else 0
  }

  lemma ShiftForm(v: word)
    ensures ShiftStep(v) == Xor(Half(v), Feedback(v))
  {
  }

  lemma PartsAreLinear(a: word, b: word)
    ensures Half(Xor(a, b)) == Xor(Half(a), Half(b))
    ensures Feedback(Xor(a, b)) == Xor(Feedback(a), Feedback(b))
  {
  }

  lemma ShiftIsLinear(a: word, b: word)
    ensures ShiftStep(Xor(a, b)) == Xor(ShiftStep(a), ShiftStep(b))
  {
    hide ShiftStep, Xor, Half, Feedback;
    ShiftForm(a);
    ShiftForm(b);
    ShiftForm(Xor(a, b));
    PartsAreLinear(a, b);
    XorSwaps(Half(a), Half(b), Feedback(a), Feedback(b));
  }

  lemma {:induction false} StepsAreLinear(n: nat, a: word, b: word)
    ensures Steps(n, Xor(a, b)) == Xor(Steps(n, a), Steps(n, b))
    decreases n
  {
    hide ShiftStep, Xor;
    if n > 0 {
      ShiftIsLinear(a, b);
      StepsAreLinear(n - 1, ShiftStep(a), ShiftStep(b));
    }
  }

  /** The top bit of the polynomial tells whether a shift fed it back. */
  lemma ShiftIsInjective(a: word, b: word)
    requires ShiftStep(a) == ShiftStep(b)
    ensures a == b
  {
  }

  lemma {:induction false} StepsAreInjective(n: nat, a: word, b: word)
    requires Steps(n, a) == Steps(n, b)
    ensures a == b
    decreases n
  {
    hide ShiftStep;
    if n > 0 {
      StepsAreInjective(n - 1, ShiftStep(a), ShiftStep(b));
      ShiftIsInjective(a, b);
    }
  }

  // ---- Feeding a byte is eight shifts ----

  function ShiftedOut(x: word, n: nat): word
    decreases n
  {
    if n == 0 then x else ShiftedOut(Half(x), n - 1)
  }

  function WithoutLowBit(x: word): word { x & 0xFFFFFFFE }

  lemma SplitLowBit(x: word)
    ensures Xor(LowBit(x), WithoutLowBit(x)) == x
    ensures ShiftStep(WithoutLowBit(x)) == Half(x)
  {
  }

  lemma {:induction false} FeedingIsShifting(v: word, x: word, n: nat)
    ensures Xor(FeedBits(v, x, n), ShiftedOut(x, n)) == Steps(n, Xor(v, x))
    decreases n
  {
    hide ShiftStep, Xor, LowBit, Half, WithoutLowBit;
    if n > 0 {
      SplitLowBit(x);
      XorAssociates(v, LowBit(x), WithoutLowBit(x));
      ShiftIsLinear(Xor(v, LowBit(x)), WithoutLowBit(x));
      FeedingIsShifting(ShiftStep(Xor(v, LowBit(x))), Half(x), n - 1);
    }
  }

  lemma HalvingBytes(x: word)
    ensures Half(Half(Half(Half(Half(Half(Half(Half(x)))))))) == DropByte(x)
  {
  }

  lemma ShiftedOutByte(x: word)
    ensures ShiftedOut(x, 8) == DropByte(x)
  {
    hide Half, DropByte;
    HalvingBytes(x);
    assert ShiftedOut(x, 8) == ShiftedOut(Half(Half(Half(Half(x)))), 4);
  }

  lemma ByteIsShort(b: byte)
    ensures DropByte(FromByte(b)) == 0 && LowByte(FromByte(b)) == FromByte(b)
  {
  }

  lemma FeedByteIsSteps(v: word, b: byte)
    ensures FeedByte(v, b) == Steps(8, Xor(v, FromByte(b)))
  {
    hide FeedBits, Steps, ShiftedOut, Xor, DropByte, FromByte, LowByte;
    var x := FromByte(b);
    FeedingIsShifting(v, x, 8);
    ShiftedOutByte(x);
    ByteIsShort(b);
    XorUnits(FeedBits(v, x, 8));
  }

  // ---- The table ----

  function WithoutLowByte(y: word): word { y & 0xFFFFFF00 }

  lemma SplitLowByte(y: word)
    ensures Xor(LowByte(y), WithoutLowByte(y)) == y
  {
  }

  lemma HighBitsMoveOnce(y: word)
    requires LowBit(y) == 0
    ensures ShiftStep(y) == Half(y)
  {
  }

  /** Shifts of a value with no low bits only move it. */
  lemma HighBitsMove(y: word)
    ensures Steps(8, WithoutLowByte(y)) == DropByte(y)
  {
    hide Half, LowBit, DropByte, WithoutLowByte, Xor, ShiftStep;
    var y0 := WithoutLowByte(y);
    var y1, y2, y3, y4 := Half(y0), Half(Half(y0)), Half(Half(Half(y0))), Half(Half(Half(Half(y0))));
    var y5, y6, y7 := Half(y4), Half(Half(y4)), Half(Half(Half(y4)));
    LowBitsAreClear(y);
    HighBitsMoveOnce(y0); HighBitsMoveOnce(y1); HighBitsMoveOnce(y2); HighBitsMoveOnce(y3);
    HighBitsMoveOnce(y4); HighBitsMoveOnce(y5); HighBitsMoveOnce(y6); HighBitsMoveOnce(y7);
    assert Steps(8, y0) == Steps(4, y4);
    assert Steps(4, y4) == Half(y7);
    HalvingBytes(y0);
    DropsTheSame(y);
  }

  lemma LowBitsAreClear(y: word)
    ensures var y0 := WithoutLowByte(y); var y4 := Half(Half(Half(Half(y0))));
      LowBit(y0) == LowBit(Half(y0)) == LowBit(Half(Half(y0))) == LowBit(Half(Half(Half(y0)))) == 0
      && LowBit(y4) == LowBit(Half(y4)) == LowBit(Half(Half(y4))) == LowBit(Half(Half(Half(y4)))) == 0
  {
  }

  lemma DropsTheSame(y: word)
    ensures DropByte(WithoutLowByte(y)) == DropByte(y)
  {
  }

  lemma DropsTheByte(v: word, b: byte)
    ensures DropByte(Xor(v, FromByte(b))) == DropByte(v)
  {
  }

  /** One table step is eight shifts. */
  lemma TableStep(v: word, b: byte)
    ensures FeedByte(v, b) == Xor(Steps(8, LowByte(Xor(v, FromByte(b)))), DropByte(v))
  {
    hide Steps, FeedByte, Xor, LowByte, DropByte, FromByte, WithoutLowByte;
    var x := Xor(v, FromByte(b));
    FeedByteIsSteps(v, b);
    SplitLowByte(x);
    StepsAreLinear(8, LowByte(x), WithoutLowByte(x));
    HighBitsMove(x);
    DropsTheByte(v, b);
  }

  /** Entry `b` of the table is eight shifts of `b`. */
  ghost predicate IsTable(table: seq<word>) {
    |table| == 256 && forall b: byte :: table[b as int] == Steps(8, FromByte(b))
  }

  function FromIndex(i: nat): word
    requires i < 256
  {
    FromByte(i as byte)
  }

  lemma IndexOfByte(b: byte)
    ensures FromIndex(b as int) == FromByte(b)
  {
  }

  method CrcTable() returns (table: seq<word>)
    ensures IsTable(table)
  {
    hide Half, LowBit, Xor, FromByte, FromIndex;
    table := [];
    for index := 0 to 256
      invariant |table| == index
      invariant forall i :: 0 <= i < index ==> table[i] == Steps(8, FromIndex(i))
    {
      var value := FromIndex(index);
      for k := 0 to 8
        invariant Steps(8 - k, value) == Steps(8, FromIndex(index))
      {
        value := if LowBit(value) == 1 then Xor(Half(value), POLYNOMIAL) else Half(value);
      }
      table := table + [value];
    }
    forall b: byte ensures table[b as int] == Steps(8, FromByte(b)) {
      IndexOfByte(b);
    }
  }

  /** The checksum as the program computes it. */
  method Crc32c(data: bytes) returns (crc: word)
    ensures crc == Crc(data)
  {
    hide Steps, FeedByte, Xor, LowByte, DropByte, FromByte, IsTable;
    var table := CrcTable();
    var value := ALL_ONES;
    for i := 0 to |data|
      invariant value == Register(ALL_ONES, data[..i])
    {
      TableStep(value, data[i]);
      RegisterSnoc(ALL_ONES, data, i);
      var index := LowByte(Xor(value, FromByte(data[i])));
      LookUp(table, Xor(value, FromByte(data[i])));
      value := Xor(table[index as int], DropByte(value));
    }
    assert data[..|data|] == data;
    crc := Xor(value, ALL_ONES);
  }

  lemma RegisterSnoc(v: word, data: bytes, i: nat)
    requires i < |data|
    ensures Register(v, data[..i + 1]) == FeedByte(Register(v, data[..i]), data[i])
  {
    hide FeedByte;
    assert data[..i + 1][..i] == data[..i];
  }

  lemma ByteOf(x: word) returns (b: byte)
    ensures b as int == LowByte(x) as int && FromByte(b) == LowByte(x)
  {
    b := (x & 0xFF) as byte;
  }

  lemma LookUp(table: seq<word>, x: word)
    requires IsTable(table)
    ensures LowByte(x) as int < |table| && table[LowByte(x) as int] == Steps(8, LowByte(x))
  {
    hide Steps, LowByte, FromByte;
    var b := ByteOf(x);
    assert table[b as int] == Steps(8, FromByte(b));
  }

  // ---- Burst errors ----

  lemma {:induction false} RegisterAppend(v: word, a: bytes, b: bytes)
    ensures Register(v, a + b) == Register(Register(v, a), b)
    decreases |b|
  {
    hide FeedByte;
    if b == [] {
      assert a + b == a;
    } else {
      assert (a + b)[..|a + b| - 1] == a + b[..|b| - 1];
      RegisterAppend(v, a, b[..|b| - 1]);
    }
  }

  lemma FeedByteIsInjective(v: word, w: word, b: byte)
    requires FeedByte(v, b) == FeedByte(w, b)
    ensures v == w
  {
    hide Steps, FeedByte, Xor, FromByte;
    FeedByteIsSteps(v, b);
    FeedByteIsSteps(w, b);
    StepsAreInjective(8, Xor(v, FromByte(b)), Xor(w, FromByte(b)));
    XorCancels(FromByte(b), v, w);
  }

  lemma {:induction false} RegisterIsInjective(v: word, w: word, data: bytes)
    requires Register(v, data) == Register(w, data)
    ensures v == w
    decreases |data|
  {
    hide FeedByte;
    if data != [] {
      var init := data[..|data| - 1];
      FeedByteIsInjective(Register(v, init), Register(w, init), data[|data| - 1]);
      RegisterIsInjective(v, w, init);
    }
  }

  function UpByte(v: word): word { v << 8 }

  /** Up to four bytes as one little-endian word. */
  function Word(x: bytes): word {
    if x == [] then 0 else Xor(FromByte(x[0]), UpByte(Word(x[1..])))
  }

  predicate Below(n: nat, v: word)
    requires n <= 4
  {
    n == 4 || v < if n == 0 then 1 else if n == 1 then 0x100 else if n == 2 then 0x10000 else 0x1000000
  }

  lemma WordStepBound(n: nat, b: byte, w: word)
    requires n < 4 && Below(n, w)
    ensures Below(n + 1, Xor(FromByte(b), UpByte(w)))
  {
  }

  lemma {:induction false} WordBound(x: bytes)
    requires |x| <= 4
    ensures Below(|x|, Word(x))
  {
    hide Xor, FromByte, UpByte;
    if x != [] {
      WordBound(x[1..]);
      WordStepBound(|x| - 1, x[0], Word(x[1..]));
    }
  }

  lemma SplitWord(n: nat, a: byte, r: word, b: byte, s: word)
    requires n < 4 && Below(n, r) && Below(n, s)
    requires Xor(FromByte(a), UpByte(r)) == Xor(FromByte(b), UpByte(s))
    ensures a == b && r == s
  {
  }

  lemma {:induction false} WordIsInjective(x: bytes, y: bytes)
    requires |x| == |y| <= 4 && Word(x) == Word(y)
    ensures x == y
  {
    hide Xor, FromByte, UpByte, Below;
    if x != [] {
      WordBound(x[1..]);
      WordBound(y[1..]);
      SplitWord(|x| - 1, x[0], Word(x[1..]), y[0], Word(y[1..]));
      WordIsInjective(x[1..], y[1..]);
      assert x == [x[0]] + x[1..] && y == [y[0]] + y[1..];
    }
  }

  lemma UpThenDown(n: nat, w: word)
    requires n < 4 && Below(n, w)
    ensures WithoutLowByte(UpByte(w)) == UpByte(w) && DropByte(UpByte(w)) == w
  {
  }

  /** Feeding up to four bytes is feeding their word at once. */
  lemma {:induction false} FeedingWords(v: word, x: bytes)
    requires |x| <= 4
    ensures Register(v, x) == Steps(8 * |x|, Xor(v, Word(x)))
    decreases |x|
  {
    hide Steps, FeedByte, Xor, FromByte, UpByte, DropByte, WithoutLowByte, Register, Below;
    if x == [] {
      NothingFed(v);
    } else {
      var b, rest := FromByte(x[0]), x[1..];
      var w := Word(rest);
      assert x == [x[0]] + rest;
      RegisterAppend(v, [x[0]], rest);
      RegisterOne(v, x[0]);
      FeedByteIsSteps(v, x[0]);
      FeedingWords(FeedByte(v, x[0]), rest);
      WordBound(rest);
      UpThenDown(|rest|, w);
      HighBitsMove(UpByte(w));
      StepsAreLinear(8, Xor(v, b), UpByte(w));
      XorAssociates(v, b, UpByte(w));
      StepsAppend(8, 8 * |rest|, Xor(v, Word(x)));
    }
  }

  lemma NothingFed(v: word)
    ensures Register(v, []) == v && Steps(0, Xor(v, 0)) == v
  {
    XorUnits(v);
  }

  lemma RegisterOne(v: word, b: byte)
    ensures Register(v, [b]) == FeedByte(v, b)
  {
    hide FeedByte;
    assert [b][..0] == [];
  }

  lemma {:induction false} StepsAppend(m: nat, n: nat, v: word)
    ensures Steps(n, Steps(m, v)) == Steps(m + n, v)
    decreases m
  {
    hide ShiftStep;
    if m > 0 {
      StepsAppend(m - 1, n, ShiftStep(v));
    }
  }

  lemma CrcInParts(prefix: bytes, x: bytes, suffix: bytes)
    ensures Crc(prefix + x + suffix) == Xor(Register(Register(Register(ALL_ONES, prefix), x), suffix), ALL_ONES)
  {
    hide Register, Xor;
    RegisterAppend(ALL_ONES, prefix + x, suffix);
    RegisterAppend(ALL_ONES, prefix, x);
  }

  /** Two byte strings of one length that differ only inside four consecutive bytes
      never have the same checksum. */
  lemma BurstsAreDetected(prefix: bytes, x: bytes, y: bytes, suffix: bytes)
    requires |x| == |y| <= 4 && x != y
    ensures Crc(prefix + x + suffix) != Crc(prefix + y + suffix)
  {
    hide Register, Steps, Word, Xor;
    var v := Register(ALL_ONES, prefix);
    CrcInParts(prefix, x, suffix);
    CrcInParts(prefix, y, suffix);
    if Crc(prefix + x + suffix) == Crc(prefix + y + suffix) {
      XorCancels(ALL_ONES, Register(Register(v, x), suffix), Register(Register(v, y), suffix));
      RegisterIsInjective(Register(v, x), Register(v, y), suffix);
      FeedingWords(v, x);
      FeedingWords(v, y);
      StepsAreInjective(8 * |x|, Xor(v, Word(x)), Xor(v, Word(y)));
      XorCancels(v, Word(x), Word(y));
      WordIsInjective(x, y);
    }
  }

  // ---- Four bytes reach every checksum ----

  /** The register before a shift: the top bit tells whether the polynomial was fed back. */
  function Unshift(v: word): word {
    if v >= 0x80000000 then ((v ^ POLYNOMIAL) << 1) | 1 else v << 1
  }

  lemma UnshiftHigh(v: word)
    requires v >= 0x80000000
    ensures (((v ^ POLYNOMIAL) << 1) | 1) & 1 == 1 && ((((v ^ POLYNOMIAL) << 1) | 1) >> 1) ^ POLYNOMIAL == v
  {
  }

  lemma UnshiftLow(v: word)
    requires v < 0x80000000
    ensures (v << 1) & 1 == 0 && (v << 1) >> 1 == v
  {
  }

  lemma UnshiftInverts(v: word)
    ensures ShiftStep(Unshift(v)) == v
  {
    if v >= 0x80000000 {
      UnshiftHigh(v);
    } else {
      UnshiftLow(v);
    }
  }

  function Unsteps(n: nat, v: word): word {
    if n == 0 then v else Unshift(Unsteps(n - 1, v))
  }

  lemma {:induction false} UnstepsInvert(n: nat, v: word)
    ensures Steps(n, Unsteps(n, v)) == v
  {
    hide ShiftStep, Unshift;
    if n > 0 {
      UnshiftInverts(Unsteps(n - 1, v));
      UnstepsInvert(n - 1, v);
    }
  }

  /** The register before `data`, from the register after it. */
  function RegisterBefore(v: word, data: bytes): word
    decreases |data|
  {
    if data == [] then v
    else RegisterBefore(Xor(Unsteps(8, v), FromByte(data[|data| - 1])), data[..|data| - 1])
  }

  lemma {:induction false} RegisterBeforeInverts(v: word, data: bytes)
    ensures Register(RegisterBefore(v, data), data) == v
    decreases |data|
  {
    hide FeedByte, Unsteps, Xor, FromByte;
    if data != [] {
      var b := data[|data| - 1];
      var u := Xor(Unsteps(8, v), FromByte(b));
      RegisterBeforeInverts(u, data[..|data| - 1]);
      FeedByteIsSteps(u, b);
      XorTwice(Unsteps(8, v), FromByte(b));
      UnstepsInvert(8, v);
    }
  }

  lemma XorTwice(a: word, b: word)
    ensures Xor(Xor(a, b), b) == a && Xor(b, Xor(b, a)) == a
  {
  }

  /** The four bytes of a word, least significant first. */
  function WordBytes(w: word): (x: bytes)
    ensures |x| == 4
  {
    [(w & 0xFF) as bv8, ((w >> 8) & 0xFF) as bv8, ((w >> 16) & 0xFF) as bv8, ((w >> 24) & 0xFF) as bv8]
  }

  lemma WordOfFour(a: byte, b: byte, c: byte, d: byte)
    ensures Word([a, b, c, d]) == Xor(FromByte(a), UpByte(Xor(FromByte(b), UpByte(Xor(FromByte(c), UpByte(Xor(FromByte(d), UpByte(0))))))))
  {
    hide Xor, FromByte, UpByte;
    assert [a, b, c, d][1..] == [b, c, d] && [b, c, d][1..] == [c, d] && [c, d][1..] == [d] && [d][1..] == [];
    assert Word([d]) == Xor(FromByte(d), UpByte(0));
    assert Word([c, d]) == Xor(FromByte(c), UpByte(Word([d])));
    assert Word([b, c, d]) == Xor(FromByte(b), UpByte(Word([c, d])));
  }

  lemma WordOfBytes(w: word)
    ensures Word(WordBytes(w)) == w
  {
    hide Word;
    var x := WordBytes(w);
    WordOfFour(x[0], x[1], x[2], x[3]);
    assert x == [x[0], x[1], x[2], x[3]];
  }

  /** The four bytes that, between `prefix` and `suffix`, give the checksum `target`. */
  function BytesFor(prefix: bytes, suffix: bytes, target: word): (x: bytes)
    ensures |x| == 4
  {
    var after := RegisterBefore(Xor(target, ALL_ONES), suffix);
    WordBytes(Xor(Register(ALL_ONES, prefix), Unsteps(32, after)))
  }

  lemma BytesForReach(prefix: bytes, suffix: bytes, target: word)
    ensures Crc(prefix + BytesFor(prefix, suffix, target) + suffix) == target
  {
    hide Register, RegisterBefore, Steps, Unsteps, Word, WordBytes, Xor, Crc;
    var v := Register(ALL_ONES, prefix);
    var after := RegisterBefore(Xor(target, ALL_ONES), suffix);
    var x := BytesFor(prefix, suffix, target);
    WordOfBytes(Xor(v, Unsteps(32, after)));
    FeedingWords(v, x);
    XorTwice(Unsteps(32, after), v);
    UnstepsInvert(32, after);
    RegisterBeforeInverts(Xor(target, ALL_ONES), suffix);
    XorTwice(target, ALL_ONES);
    CrcInParts(prefix, x, suffix);
  }

  /** Any four consecutive bytes can be chosen to give any checksum, in exactly one way. */
  lemma FourBytesDecideTheChecksum(prefix: bytes, x: bytes, suffix: bytes, target: word)
    requires |x| == 4
    ensures Crc(prefix + x + suffix) == target <==> x == BytesFor(prefix, suffix, target)
  {
    hide Crc, BytesFor;
    BytesForReach(prefix, suffix, target);
    if x != BytesFor(prefix, suffix, target) {
      BurstsAreDetected(prefix, x, BytesFor(prefix, suffix, target), suffix);
    }
  }
}
