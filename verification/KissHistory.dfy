/** What the KISS decoder makes of any byte stream, said without its modes and flags: a
    grammar of escapes and delimiters, and the places where frames begin and end. */
module KissHistory {
  import opened Common
  import opened CspV2
  import opened CspV2Packet
  import opened Crc32c
  import opened Kiss

  /** What a stream inside a frame consists of. */
  datatype Symbol = Delimiter | Plain(b: byte) | Unescaped(b: byte)

  /** The symbols of a stream. DB opens an escape: DB DC stands for C0, DB DD for DB, and DB
      with any other byte for nothing. An escape that the stream does not finish is none. */
  function Symbols(d: bytes): seq<Symbol> {
    if d == [] then []
    else if d[0] == 0xC0 then [Delimiter] + Symbols(d[1..])
    else if d[0] != 0xDB then [Plain(d[0])] + Symbols(d[1..])
    else if |d| == 1 then []
    else (if d[1] == 0xDC then [Unescaped(0xC0)] else if d[1] == 0xDD then [Unescaped(0xDB)] else []) + Symbols(d[2..])
  }

  /** Whether a stream ends in an unfinished escape. */
  predicate Unfinished(d: bytes) {
    if d == [] then false
    else if d[0] != 0xDB then Unfinished(d[1..])
    else |d| == 1 || Unfinished(d[2..])
  }

  /** The bytes that symbols stand for. */
  function BytesOf(symbols: seq<Symbol>): bytes {
    if symbols == [] then []
    else (if symbols[0] == Delimiter then [] else [symbols[0].b]) + BytesOf(symbols[1..])
  }

  /** The symbols without the command byte: the first byte that is not escaped. */
  function WithoutCommand(symbols: seq<Symbol>): seq<Symbol> {
    if symbols == [] then []
    else if symbols[0].Plain? then symbols[1..]
    else [symbols[0]] + WithoutCommand(symbols[1..])
  }

  predicate HasCommand(symbols: seq<Symbol>) {
    exists i :: 0 <= i < |symbols| && symbols[i].Plain?
  }

  /** The content of a frame, from the stream after its opening delimiter. */
  function Collected(d: bytes): bytes {
    BytesOf(WithoutCommand(Symbols(d)))
  }

  // ---- One more byte ----

  /** What byte `b` adds to the symbols of `d`. */
  function Added(d: bytes, b: byte): seq<Symbol> {
    if Unfinished(d) then if b == 0xDC then [Unescaped(0xC0)] else if b == 0xDD then [Unescaped(0xDB)] else []
    else if b == 0xC0 then [Delimiter]
    else if b == 0xDB then []
    else [Plain(b)]
  }

  /** Whether the first symbol of `d`, or its first escape, is complete. */
  predicate Begins(d: bytes) {
    d != [] && (d[0] != 0xDB || |d| > 1)
  }

  function FirstOf(d: bytes): seq<Symbol>
    requires Begins(d)
  {
    if d[0] == 0xC0 then [Delimiter]
    else if d[0] != 0xDB then [Plain(d[0])]
    else if d[1] == 0xDC then [Unescaped(0xC0)]
    else if d[1] == 0xDD then [Unescaped(0xDB)]
    else []
  }

  function AfterFirst(d: bytes): bytes
    requires Begins(d)
  {
    if d[0] != 0xDB then d[1..] else d[2..]
  }

  lemma FirstSymbol(d: bytes)
    requires Begins(d)
    ensures Symbols(d) == FirstOf(d) + Symbols(AfterFirst(d)) && Unfinished(d) == Unfinished(AfterFirst(d))
  {
  }

  lemma FirstBytes(b: byte)
    ensures Symbols([b]) == Added([], b) && (Unfinished([b]) <==> b == 0xDB)
    ensures Symbols([0xDB, b]) == Added([0xDB], b) && !Unfinished([0xDB, b])
    ensures Symbols([0xDB]) == [] && Unfinished([0xDB])
  {
    assert [b][1..] == [] && [0xDB, b][2..] == [];
  }

  lemma FirstStays(d: bytes, b: byte)
    requires Begins(d)
    ensures Begins(d + [b]) && FirstOf(d + [b]) == FirstOf(d) && AfterFirst(d + [b]) == AfterFirst(d) + [b]
  {
  }

  lemma {:induction false} OneMoreByte(d: bytes, b: byte)
    ensures Symbols(d + [b]) == Symbols(d) + Added(d, b)
    ensures Unfinished(d + [b]) <==> !Unfinished(d) && b == 0xDB
    decreases |d|
  {
    hide Symbols, Unfinished, FirstOf;
    NoSymbols();
    if d == [] {
      FirstBytes(b);
      assert [] + [b] == [b];
    } else if d == [0xDB] {
      FirstBytes(b);
      assert [0xDB] + [b] == [0xDB, b];
    } else {
      FirstStays(d, b);
      FirstSymbol(d);
      FirstSymbol(d + [b]);
      OneMoreByte(AfterFirst(d), b);
    }
  }

  lemma NoSymbols()
    ensures Symbols([]) == [] && BytesOf([]) == [] && !Unfinished([])
  {
  }

  lemma {:induction false} BytesAppend(a: seq<Symbol>, b: seq<Symbol>)
    ensures BytesOf(a + b) == BytesOf(a) + BytesOf(b)
  {
    if a == [] {
      assert a + b == b;
    } else {
      assert (a + b)[1..] == a[1..] + b;
      BytesAppend(a[1..], b);
    }
  }

  lemma {:induction false} CommandSnoc(symbols: seq<Symbol>, x: Symbol)
    ensures WithoutCommand(symbols + [x]) == WithoutCommand(symbols) + if x.Plain? && !HasCommand(symbols) then [] else [x]
    ensures HasCommand(symbols + [x]) <==> HasCommand(symbols) || x.Plain?
  {
    var all := symbols + [x];
    assert all[|symbols|] == x && forall i :: 0 <= i < |symbols| ==> all[i] == symbols[i];
    if symbols != [] {
      assert all[1..] == symbols[1..] + [x];
      if !symbols[0].Plain? {
        CommandSnoc(symbols[1..], x);
        assert HasCommand(symbols) <==> HasCommand(symbols[1..]) by {
          if i :| 0 <= i < |symbols| && symbols[i].Plain? {
            assert symbols[1..][i - 1].Plain?;
          }
        }
      }
    }
  }

  /** How the content of a frame grows. */
  lemma CollectedSnoc(d: bytes, b: byte)
    ensures var symbols := Symbols(d);
      && Collected(d + [b]) == Collected(d) +
           (if Unfinished(d) then if b == 0xDC then [0xC0] else if b == 0xDD then [0xDB] else []
            else if b == 0xC0 || b == 0xDB || !HasCommand(symbols) then [] else [b])
      && (HasCommand(Symbols(d + [b])) <==> HasCommand(symbols) || (!Unfinished(d) && b != 0xC0 && b != 0xDB))
  {
    var symbols, more := Symbols(d), Added(d, b);
    OneMoreByte(d, b);
    if more == [] {
      assert symbols + more == symbols;
      assert Collected(d) + [] == Collected(d);
    } else {
      CommandSnoc(symbols, more[0]);
      BytesAppend(WithoutCommand(symbols), more);
      assert BytesOf(more) == if more[0] == Delimiter then [] else [more[0].b];
      assert WithoutCommand(symbols) + [] == WithoutCommand(symbols);
      assert Collected(d) + [] == Collected(d);
    }
  }

  // ---- The decoder inside a frame ----

  /** The state after an opening delimiter and `d`, as long as the frame has not ended. */
  function Inside(d: bytes): State {
    State(if Unfinished(d) then Escaped else Started, !HasCommand(Symbols(d)), Collected(d), [0xC0] + d)
  }

  /** The frame overflows before byte `j`: its content has reached the size of the buffer. */
  predicate OverflowsAt(max: nat, d: bytes, j: nat)
    requires j < |d|
  {
    |Collected(d[..j])| >= max + 6
  }

  /** Byte `j` is a delimiter, not part of an escape, that finds content. */
  predicate ClosesAt(d: bytes, j: nat)
    requires j < |d|
  {
    d[j] == 0xC0 && !Unfinished(d[..j]) && Collected(d[..j]) != []
  }

  predicate EndsAt(max: nat, d: bytes, j: nat)
    requires j < |d|
  {
    OverflowsAt(max, d, j) || ClosesAt(d, j)
  }

  lemma FrameOpens()
    ensures Inside([]) == FRESH
  {
    assert [0xC0] + [] == [0xC0];
  }

  lemma StaysInside(max: nat, d: bytes, j: nat)
    requires j < |d| && !EndsAt(max, d, j)
    ensures StepByte(max, Inside(d[..j]), d[j]) == Decoding(Inside(d[..j + 1]), [])
  {
    hide Symbols, Collected, HasCommand, Judge;
    assert d[..j + 1] == d[..j] + [d[j]];
    OneMoreByte(d[..j], d[j]);
    CollectedSnoc(d[..j], d[j]);
    assert [0xC0] + d[..j + 1] == ([0xC0] + d[..j]) + [d[j]];
    assert Collected(d[..j]) + [] == Collected(d[..j]);
  }

  lemma {:induction false} InsideUntil(max: nat, d: bytes, j: nat)
    requires j <= |d| && forall i :: 0 <= i < j ==> !EndsAt(max, d, i)
    ensures Decode(max, FRESH, d[..j]) == Decoding(Inside(d[..j]), [])
  {
    hide Decode, Inside, StepByte, EndsAt;
    if j == 0 {
      FrameOpens();
      DecodeNone(max, FRESH);
    } else {
      InsideUntil(max, d, j - 1);
      StaysInside(max, d, j - 1);
      assert d[..j] == d[..j - 1] + [d[j - 1]];
      DecodeSnoc(max, FRESH, d[..j - 1], d[j - 1]);
    }
  }

  // ---- Any stream ----

  /** Where the frame that `d` continues ends, looking from `j` on; |d| if it does not. */
  function FrameEnd(max: nat, d: bytes, j: nat): (k: nat)
    requires j <= |d|
    ensures j <= k <= |d| && (k < |d| ==> EndsAt(max, d, k))
    ensures forall i :: j <= i < k ==> !EndsAt(max, d, i)
    decreases |d| - j
  {
    if j == |d| || EndsAt(max, d, j) then j else FrameEnd(max, d, j + 1)
  }

  /** The events of a stream that begins between frames. Bytes before a delimiter are
      skipped. A frame that overflows is reported once, with the bytes so far, and the byte
      at hand is looked at again between frames; a frame that closes is judged by its
      content, and its closing delimiter belongs to no other frame. */
  function EventsOfStream(max: nat, stream: bytes): seq<KissEvent>
    decreases |stream|
  {
    if stream == [] then []
    else if stream[0] != 0xC0 then EventsOfStream(max, stream[1..])
    else
      var d := stream[1..];
      var j := FrameEnd(max, d, 0);
      if j == |d| then []
      else if OverflowsAt(max, d, j) then [Dropped(Overflow, [0xC0] + d[..j], None, Some(max))] + EventsOfStream(max, d[j..])
      else [Judge(Collected(d[..j]), [0xC0] + d[..j + 1])] + EventsOfStream(max, d[j + 1..])
  }

  lemma DecodeFirst(max: nat, s: State, stream: bytes)
    requires stream != []
    ensures var d := StepByte(max, s, stream[0]); var rest := Decode(max, d.state, stream[1..]);
      Decode(max, s, stream) == Decoding(rest.state, d.events + rest.events)
  {
    hide Decode, StepByte;
    DecodeOne(max, s, stream[0]);
    ChunkingDoesNotMatter(max, s, [stream[0]], stream[1..]);
    assert stream == [stream[0]] + stream[1..];
  }

  /** A byte that finds the buffer full is read again between frames. */
  lemma FullBuffer(max: nat, s: State, stream: bytes)
    requires Overflowing(max, s) && stream != []
    ensures Decode(max, s, stream).events == [OverflowOf(max, s)] + Decode(max, Reset(s), stream).events
  {
    hide Decode, ReadByte;
    DecodeFirst(max, s, stream);
    DecodeFirst(max, Reset(s), stream);
    var read := ReadByte(Reset(s), stream[0]);
    var rest := Decode(max, read.state, stream[1..]).events;
    assert ([OverflowOf(max, s)] + read.events) + rest == [OverflowOf(max, s)] + (read.events + rest);
  }

  lemma ClosingByte(max: nat, d: bytes, j: nat)
    requires j < |d| && !OverflowsAt(max, d, j) && ClosesAt(d, j)
    ensures StepByte(max, Inside(d[..j]), d[j])
      == Decoding(Reset(Inside(d[..j])), [Judge(Collected(d[..j]), [0xC0] + d[..j + 1])])
  {
    hide Symbols, Collected, Judge, Unfinished;
    assert ([0xC0] + d[..j]) + [d[j]] == [0xC0] + d[..j + 1];
  }

  /** The decoder gives exactly the events of the stream, whatever the stream. */
  lemma {:induction false} DecoderFollowsStream(max: nat, s: State, stream: bytes)
    requires Idle(s)
    ensures Decode(max, s, stream).events == EventsOfStream(max, stream)
    decreases |stream|
  {
    hide Decode, StepByte, Inside, EndsAt, ClosesAt, Collected, Judge;
    if stream == [] {
      DecodeNone(max, s);
    } else if stream[0] != 0xC0 {
      DecodeFirst(max, s, stream);
      SkipsOrOpens(max, s, stream[0]);
      DecoderFollowsStream(max, s, stream[1..]);
      assert [] + EventsOfStream(max, stream[1..]) == EventsOfStream(max, stream[1..]);
    } else {
      var d := stream[1..];
      var j := FrameEnd(max, d, 0);
      DecodeFirst(max, s, stream);
      SkipsOrOpens(max, s, stream[0]);
      InsideUntil(max, d, j);
      ChunkingDoesNotMatter(max, FRESH, d[..j], d[j..]);
      assert d == d[..j] + d[j..];
      if j == |d| {
        DecodeNone(max, Inside(d[..j]));
        assert d[j..] == [];
      } else if OverflowsAt(max, d, j) {
        FullInside(max, d, j);
        FullBuffer(max, Inside(d[..j]), d[j..]);
        DecoderFollowsStream(max, Reset(Inside(d[..j])), d[j..]);
      } else {
        ClosesUnlessFull(max, d, j);
        ClosingByte(max, d, j);
        DecodeFirst(max, Inside(d[..j]), d[j..]);
        assert d[j..][0] == d[j] && d[j..][1..] == d[j + 1..];
        DecoderFollowsStream(max, Reset(Inside(d[..j])), d[j + 1..]);
      }
    }
  }

  lemma ClosesUnlessFull(max: nat, d: bytes, j: nat)
    requires j < |d| && EndsAt(max, d, j) && !OverflowsAt(max, d, j)
    ensures ClosesAt(d, j)
  {
  }

  lemma FullInside(max: nat, d: bytes, j: nat)
    requires j < |d| && OverflowsAt(max, d, j)
    ensures Overflowing(max, Inside(d[..j]))
    ensures OverflowOf(max, Inside(d[..j])) == Dropped(Overflow, [0xC0] + d[..j], None, Some(max))
  {
    hide Symbols, Collected, Unfinished;
  }

  lemma SkipsOrOpens(max: nat, s: State, b: byte)
    requires Idle(s)
    ensures StepByte(max, s, b) == Decoding(if b == 0xC0 then FRESH else s, [])
  {
  }

  /** A frame with less than a header and a checksum is too short. */
  lemma ShortFrames(content: bytes, wire: bytes)
    ensures |content| < 10 <==> Judge(content, wire) == Dropped(TooShort, wire, None, None)
  {
    hide UnpackHeader, FromBytes4, Crc, HasFragmentFlag;
  }

  // ---- The encoder ----

  predicate Special(b: byte) { b == 0xC0 || b == 0xDB }

  function SpecialsIn(content: bytes): nat {
    if content == [] then 0
    else SpecialsIn(content[..|content| - 1]) + if Special(content[|content| - 1]) then 1 else 0
  }

  /** A frame on the line: delimiter and data command in front, delimiter at the end, no
      delimiter in between, and in between symbols that stand for exactly the content, with
      one byte more for each byte that had to be escaped. */
  lemma FrameOnTheLine(content: bytes)
    ensures var w := Frame(content); var inner := w[2..|w| - 1];
      && |w| == |content| + SpecialsIn(content) + 3
      && w[0] == 0xC0 && w[1] == 0x00 && w[|w| - 1] == 0xC0
      && (forall i :: 0 <= i < |inner| ==> inner[i] != 0xC0)
      && !Unfinished(inner) && BytesOf(Symbols(inner)) == content
  {
    hide Symbols, BytesOf, Unfinished;
    EscapedSymbols(content);
    assert Frame(content)[2..|Frame(content)| - 1] == Escape(content);
  }

  lemma {:induction false} EscapedSymbols(content: bytes)
    ensures var inner := Escape(content);
      && |inner| == |content| + SpecialsIn(content)
      && (forall i :: 0 <= i < |inner| ==> inner[i] != 0xC0)
      && !Unfinished(inner) && BytesOf(Symbols(inner)) == content
  {
    hide Symbols, Unfinished, BytesOf;
    if content == [] {
      NoSymbols();
    } else {
      var n := |content| - 1;
      EscapedSymbols(content[..n]);
      var inner := Escape(content[..n]);
      EscapedByte(inner, content[n]);
      assert content == content[..n] + [content[n]];
    }
  }

  lemma OneSymbol(x: Symbol)
    ensures BytesOf([x]) == if x == Delimiter then [] else [x.b]
  {
  }

  lemma EscapedByte(inner: bytes, b: byte)
    requires !Unfinished(inner)
    ensures !Unfinished(inner + EscapeByte(b)) && BytesOf(Symbols(inner + EscapeByte(b))) == BytesOf(Symbols(inner)) + [b]
  {
    hide Symbols, Unfinished, BytesOf;
    var symbols := Symbols(inner);
    if Special(b) {
      var t := EscapeByte(b)[1];
      OneMoreByte(inner, 0xDB);
      OneMoreByte(inner + [0xDB], t);
      assert inner + EscapeByte(b) == inner + [0xDB] + [t];
      assert symbols + [] == symbols;
      BytesAppend(symbols, [Unescaped(b)]);
      OneSymbol(Unescaped(b));
    } else {
      OneMoreByte(inner, b);
      BytesAppend(symbols, [Plain(b)]);
      OneSymbol(Plain(b));
    }
  }
}
