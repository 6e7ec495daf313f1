/** Byte-aligned layouts of integer signals: which layouts are accepted, and that packing
    and unpacking are inverse. */
module SignalLayout {
  import opened Common

  /** A byte as a number: fields are read and written as integers here. */
  type Octet = n: int | 0 <= n < 256

  datatype SignalEndian = Big | Little

  datatype SignalField = SignalField(
    name: string, byteOffset: nat, byteLength: nat, signed: bool, endian: SignalEndian)
  {
    function EndByte(): nat { byteOffset + byteLength }

    predicate Covers(k: nat) { byteOffset <= k < EndByte() }
  }

  // ---- Integers as bytes ----

  /** The number of values of `n` bytes. */
  function Power(n: nat): nat {
    if n == 0 then 1 else 256 * Power(n - 1)
  }

  function LittleBytes(v: nat, n: nat): (s: seq<Octet>)
    ensures |s| == n
  {
    if n == 0 then [] else [v % 256] + LittleBytes(v / 256, n - 1)
  }

  function LittleValue(s: seq<Octet>): nat {
    if s == [] then 0 else s[0] + 256 * LittleValue(s[1..])
  }

  function Reversed(s: seq<Octet>): (r: seq<Octet>)
    ensures |r| == |s| && forall i :: 0 <= i < |s| ==> r[i] == s[|s| - 1 - i]
  {
    seq(|s|, i requires 0 <= i < |s| => s[|s| - 1 - i])
  }

  function Ordered(endian: SignalEndian, s: seq<Octet>): (r: seq<Octet>)
    ensures |r| == |s|
  {
    if endian == Little then s else Reversed(s)
  }

  /** The values a field can carry. */
  predicate InRange(f: SignalField, v: int) {
    if f.signed then -(Power(f.byteLength) as int) <= 2 * v < Power(f.byteLength) else 0 <= v < Power(f.byteLength)
  }

  /** Two's complement, in the byte order of the field. */
  function PackValue(f: SignalField, v: int): (s: seq<Octet>)
    requires InRange(f, v)
    ensures |s| == f.byteLength
  {
    Ordered(f.endian, LittleBytes(if v < 0 then v + Power(f.byteLength) else v, f.byteLength))
  }

  function UnpackValue(f: SignalField, s: seq<Octet>): int
    requires |s| == f.byteLength
  {
    var raw := LittleValue(Ordered(f.endian, s));
    if f.signed && 2 * raw >= Power(f.byteLength) then raw - Power(f.byteLength) else raw
  }

  lemma {:induction false} LittleRoundTrip(v: nat, n: nat)
    requires v < Power(n)
    ensures LittleValue(LittleBytes(v, n)) == v
  {
    if n > 0 {
      LittleRoundTrip(v / 256, n - 1);
      assert LittleBytes(v, n)[1..] == LittleBytes(v / 256, n - 1);
    }
  }

  lemma {:induction false} LittleInverse(s: seq<Octet>)
    ensures LittleValue(s) < Power(|s|) && LittleBytes(LittleValue(s), |s|) == s
  {
    if s != [] {
      LittleInverse(s[1..]);
      assert s == [s[0]] + s[1..];
    }
  }

  lemma OrderedTwice(endian: SignalEndian, s: seq<Octet>)
    ensures Ordered(endian, Ordered(endian, s)) == s
  {
  }

  lemma PackUndoesUnpack(f: SignalField, s: seq<Octet>)
    requires |s| == f.byteLength
    ensures InRange(f, UnpackValue(f, s)) && PackValue(f, UnpackValue(f, s)) == s
  {
    hide Power, LittleValue, LittleBytes, Ordered;
    LittleInverse(Ordered(f.endian, s));
    OrderedTwice(f.endian, s);
  }

  lemma UnpackUndoesPack(f: SignalField, v: int)
    requires InRange(f, v)
    ensures UnpackValue(f, PackValue(f, v)) == v
  {
    hide Power, LittleValue, LittleBytes, Ordered;
    var u := if v < 0 then v + Power(f.byteLength) else v;
    LittleRoundTrip(u, f.byteLength);
    OrderedTwice(f.endian, LittleBytes(u, f.byteLength));
  }

  /** Bytes and values of a field correspond one to one, signed or not, in either order. */
  lemma ValueBijection(f: SignalField, v: int, s: seq<Octet>)
    requires |s| == f.byteLength
    ensures InRange(f, UnpackValue(f, s))
    ensures InRange(f, v) ==> (PackValue(f, v) == s <==> UnpackValue(f, s) == v)
  {
    hide InRange, PackValue, UnpackValue;
    PackUndoesUnpack(f, s);
    if InRange(f, v) {
      UnpackUndoesPack(f, v);
    }
  }

  /** The number a sequence of bytes writes with its most significant byte first. */
  function BigValue(s: seq<Octet>): nat {
    if s == [] then 0 else 256 * BigValue(s[..|s| - 1]) + s[|s| - 1]
  }

  /** And with its least significant byte first: byte i counts 256 to the i. */
  function WeightedSum(s: seq<Octet>): nat {
    if s == [] then 0 else WeightedSum(s[..|s| - 1]) + s[|s| - 1] * Power(|s| - 1)
  }

  lemma {:induction false} LittleIsWeighted(s: seq<Octet>, b: Octet)
    ensures LittleValue(s + [b]) == LittleValue(s) + b * Power(|s|)
  {
    if s == [] {
      assert ([] + [b])[1..] == [];
    } else {
      assert (s + [b])[1..] == s[1..] + [b];
      LittleIsWeighted(s[1..], b);
      TimesPower(b, |s| - 1);
    }
  }

  lemma TimesPower(b: nat, n: nat)
    ensures b * Power(n + 1) == 256 * (b * Power(n))
  {
  }

  lemma {:induction false} LittleIsSum(s: seq<Octet>)
    ensures LittleValue(s) == WeightedSum(s)
  {
    if s != [] {
      LittleIsSum(s[..|s| - 1]);
      LittleIsWeighted(s[..|s| - 1], s[|s| - 1]);
      assert s == s[..|s| - 1] + [s[|s| - 1]];
    }
  }

  lemma {:induction false} ReversedIsBig(s: seq<Octet>)
    ensures LittleValue(Reversed(s)) == BigValue(s)
  {
    if s != [] {
      ReversedIsBig(s[..|s| - 1]);
      assert Reversed(s)[1..] == Reversed(s[..|s| - 1]);
    }
  }

  /** The byte that holds the sign. */
  function TopByte(f: SignalField, s: seq<Octet>): Octet
    requires |s| == f.byteLength > 0
  {
    if f.endian == Big then s[0] else s[|s| - 1]
  }

  lemma TopByteDecides(s: seq<Octet>)
    requires s != []
    ensures 2 * WeightedSum(s) >= Power(|s|) <==> s[|s| - 1] >= 128
  {
    var n := |s| - 1;
    LittleIsSum(s[..n]);
    LittleInverse(s[..n]);
    var top, low, p := s[n], WeightedSum(s[..n]), Power(n);
    assert Power(|s|) == 256 * p && WeightedSum(s) == low + top * p && low < p;
    HalfOfPower(top, low, p);
  }

  lemma HalfOfPower(top: int, low: int, p: int)
    requires 0 <= low < p && 0 <= top < 256
    ensures 2 * (low + top * p) >= 256 * p <==> top >= 128
  {
    if top >= 128 {
      assert top * p >= 128 * p;
    } else {
      assert top * p <= 127 * p;
    }
  }

  /** A field reads as the sum of its bytes by weight, the first byte weighing most in a big
      endian field and least in a little endian one; if it is signed and the byte that
      weighs most is 128 or more, less 256 to the length. */
  lemma ValueByWeight(f: SignalField, s: seq<Octet>)
    requires |s| == f.byteLength > 0
    ensures var raw := if f.endian == Big then BigValue(s) else WeightedSum(s);
      UnpackValue(f, s) == if f.signed && TopByte(f, s) >= 128 then raw - Power(f.byteLength) else raw
  {
    hide LittleValue, WeightedSum, BigValue, Power, Reversed;
    LittleIsSum(Ordered(f.endian, s));
    TopByteDecides(Ordered(f.endian, s));
    ReversedIsBig(s);
    FirstIsLast(s);
  }

  lemma FirstIsLast(s: seq<Octet>)
    requires s != []
    ensures |Reversed(s)| == |s| && Reversed(s)[|s| - 1] == s[0]
  {
  }

  // ---- Which layouts are accepted ----

  datatype SignalLayout = SignalLayout(fields: seq<SignalField>, frameLength: Option<nat>) {
    function EncodedLength(): nat {
      if frameLength.Some? then frameLength.value else RequiredLength(fields)
    }
  }

  datatype SignalError =
    | DuplicateName | Overlap | FrameTooShort
    | MissingValues | UnexpectedValues | OutOfRange
    | PayloadTooShort | WrongPayloadLength

  function RequiredLength(fields: seq<SignalField>): nat {
    if fields == [] then 0
    else
      var rest := RequiredLength(fields[..|fields| - 1]);
      var end := fields[|fields| - 1].EndByte();
      if end > rest then end else rest
  }

  ghost predicate UniqueNames(fields: seq<SignalField>) {
    forall i, j :: 0 <= i < j < |fields| ==> fields[i].name != fields[j].name
  }

  predicate Apart(f: SignalField, g: SignalField) {
    f.EndByte() <= g.byteOffset || g.EndByte() <= f.byteOffset
  }

  ghost predicate Disjoint(fields: seq<SignalField>) {
    forall i, j :: 0 <= i < j < |fields| ==> Apart(fields[i], fields[j])
  }

  /** Every field lies within the first `length` bytes. */
  ghost predicate Inside(fields: seq<SignalField>, length: nat) {
    forall i :: 0 <= i < |fields| ==> fields[i].EndByte() <= length
  }

  ghost predicate ValidLayout(layout: SignalLayout) {
    UniqueNames(layout.fields) && Disjoint(layout.fields) && Inside(layout.fields, layout.EncodedLength())
  }

  /** The required length is the least that holds every field. */
  lemma {:induction false} RequiredLengthIsLeast(fields: seq<SignalField>, length: nat)
    ensures Inside(fields, length) <==> RequiredLength(fields) <= length
  {
    if fields != [] {
      var n := |fields| - 1;
      RequiredLengthIsLeast(fields[..n], length);
      assert forall i :: 0 <= i < n ==> fields[i] == fields[..n][i];
    }
  }

  method CheckUniqueNames(fields: seq<SignalField>) returns (ok: bool)
    ensures ok <==> UniqueNames(fields)
  {
    var seen: set<string> := {};
    for i := 0 to |fields|
      invariant UniqueNames(fields[..i])
      invariant forall name :: name in seen <==> exists j :: 0 <= j < i && fields[j].name == name
    {
      if fields[i].name in seen {
        return false;
      }
      seen := seen + {fields[i].name};
    }
    assert fields[..|fields|] == fields;
    ok := true;
  }

  /** Every byte the scan has recorded belongs to the field it names. */
  ghost predicate Recorded(occupied: map<nat, string>, fields: seq<SignalField>) {
    forall k: nat :: k in occupied ==>
      exists j :: 0 <= j < |fields| && fields[j].Covers(k) && fields[j].name == occupied[k]
  }

  /** The scan has recorded the bytes of `f` up to `end`. */
  ghost predicate Occupied(occupied: map<nat, string>, f: SignalField, end: nat) {
    forall k: nat :: f.byteOffset <= k < end ==> k in occupied && occupied[k] == f.name
  }

  function SharedByte(f: SignalField, g: SignalField): (k: nat)
    requires !Apart(f, g) && f.byteLength > 0 && g.byteLength > 0
    ensures f.Covers(k) && g.Covers(k)
  {
    if f.byteOffset < g.byteOffset then g.byteOffset else f.byteOffset
  }

  lemma SameName(occupied: map<nat, string>, f: SignalField, g: SignalField, k: nat)
    requires Occupied(occupied, f, f.EndByte()) && Occupied(occupied, g, g.EndByte())
    requires f.Covers(k) && g.Covers(k)
    ensures f.name == g.name
  {
    assert occupied[k] == f.name;
  }

  lemma NoneRecorded(fields: seq<SignalField>)
    ensures Recorded(map[], fields)
  {
  }

  lemma RecordedByMore(occupied: map<nat, string>, fields: seq<SignalField>, i: nat)
    requires i < |fields| && Recorded(occupied, fields[..i])
    ensures Recorded(occupied, fields[..i + 1])
  {
    assert forall j :: 0 <= j < i ==> fields[..i][j] == fields[..i + 1][j];
  }

  lemma RecordOne(occupied: map<nat, string>, fields: seq<SignalField>, i: nat, k: nat)
    requires i < |fields| && Recorded(occupied, fields) && fields[i].Covers(k)
    ensures Recorded(occupied[k := fields[i].name], fields)
  {
  }

  /** Recording a free byte of `f` keeps what is recorded of other fields. */
  lemma OccupyOne(occupied: map<nat, string>, f: SignalField, k: nat, g: SignalField, end: nat)
    requires Occupied(occupied, g, end) && k !in occupied
    ensures Occupied(occupied[k := f.name], g, end)
  {
  }

  lemma OccupyNext(occupied: map<nat, string>, f: SignalField, k: nat)
    requires Occupied(occupied, f, k) && k in occupied && occupied[k] == f.name
    ensures Occupied(occupied, f, k + 1)
  {
  }

  lemma NoneOccupied(occupied: map<nat, string>, f: SignalField)
    ensures Occupied(occupied, f, f.byteOffset)
  {
  }

  /** A byte recorded for another field is a byte of both. */
  lemma Clash(occupied: map<nat, string>, fields: seq<SignalField>, i: nat, k: nat)
    requires i < |fields| && Recorded(occupied, fields[..i + 1])
    requires fields[i].Covers(k) && k in occupied && occupied[k] != fields[i].name
    ensures !Disjoint(fields)
  {
    var j :| 0 <= j < i + 1 && fields[..i + 1][j].Covers(k) && fields[..i + 1][j].name == occupied[k];
    assert j < i && !Apart(fields[j], fields[i]);
  }

  /** A field whose bytes were all recorded under its own name overlaps none before it. */
  lemma RecordedIsApart(occupied: map<nat, string>, f: SignalField, g: SignalField)
    requires f.byteLength > 0 && g.byteLength > 0 && f.name != g.name
    requires Occupied(occupied, f, f.EndByte()) && Occupied(occupied, g, g.EndByte())
    ensures Apart(f, g)
  {
    if !Apart(f, g) {
      SameName(occupied, f, g, SharedByte(f, g));
    }
  }

  /** The byte-by-byte scan accepts exactly the layouts whose fields do not overlap. */
  method CheckNonOverlapping(fields: seq<SignalField>) returns (ok: bool)
    requires UniqueNames(fields) && forall i :: 0 <= i < |fields| ==> fields[i].byteLength > 0
    ensures ok <==> Disjoint(fields)
  {
    hide Recorded, Occupied, Apart;
    var occupied: map<nat, string> := map[];
    NoneRecorded(fields[..0]);
    for i := 0 to |fields|
      invariant Recorded(occupied, fields[..i])
      invariant forall j :: 0 <= j < i ==> Occupied(occupied, fields[j], fields[j].EndByte())
    {
      var f := fields[i];
      RecordedByMore(occupied, fields, i);
      NoneOccupied(occupied, f);
      for k := f.byteOffset to f.EndByte()
        invariant Recorded(occupied, fields[..i + 1])
        invariant forall j :: 0 <= j < i ==> Occupied(occupied, fields[j], fields[j].EndByte())
        invariant Occupied(occupied, f, k)
      {
        if k !in occupied {
          RecordOne(occupied, fields[..i + 1], i, k);
          forall j | 0 <= j < i ensures Occupied(occupied[k := f.name], fields[j], fields[j].EndByte()) {
            OccupyOne(occupied, f, k, fields[j], fields[j].EndByte());
          }
          OccupyOne(occupied, f, k, f, k);
          occupied := occupied[k := f.name];
        } else if occupied[k] != f.name {
          Clash(occupied, fields, i, k);
          return false;
        }
        OccupyNext(occupied, f, k);
      }
    }
    forall i, j | 0 <= i < j < |fields| ensures Apart(fields[i], fields[j]) {
      RecordedIsApart(occupied, fields[i], fields[j]);
    }
    ok := true;
  }

  /** Accept a layout exactly when its names are unique, no two fields overlap, and a
      given frame length holds them all. */
  method Validate(layout: SignalLayout) returns (r: Result<(), SignalError>)
    requires forall i :: 0 <= i < |layout.fields| ==> layout.fields[i].byteLength > 0
    ensures r.Ok? <==> ValidLayout(layout)
    ensures r.Err? ==> (r.error ==
      if !UniqueNames(layout.fields) then DuplicateName
      else if !Disjoint(layout.fields) then Overlap
      else FrameTooShort)
  {
    RequiredLengthIsLeast(layout.fields, layout.EncodedLength());
    var unique := CheckUniqueNames(layout.fields);
    if !unique {
      return Err(DuplicateName);
    }
    var apart := CheckNonOverlapping(layout.fields);
    if !apart {
      return Err(Overlap);
    }
    if layout.frameLength.Some? && RequiredLength(layout.fields) > layout.frameLength.value {
      return Err(FrameTooShort);
    }
    r := Ok(());
  }

  // ---- Packing and unpacking ----

  type Values = map<string, int>

  function Names(layout: SignalLayout): set<string> {
    set i | 0 <= i < |layout.fields| :: layout.fields[i].name
  }

  ghost predicate AllInRange(fields: seq<SignalField>, values: Values) {
    forall i :: 0 <= i < |fields| ==> fields[i].name in values && InRange(fields[i], values[fields[i].name])
  }

  ghost predicate Covered(fields: seq<SignalField>, k: nat) {
    exists i :: 0 <= i < |fields| && fields[i].Covers(k)
  }

  /** The bytes of `payload` at field `f`. */
  function Slice(payload: seq<Octet>, f: SignalField): seq<Octet>
    requires f.EndByte() <= |payload|
  {
    payload[f.byteOffset..f.EndByte()]
  }

  ghost predicate UnusedAreZero(fields: seq<SignalField>, payload: seq<Octet>) {
    forall k :: 0 <= k < |payload| && !Covered(fields, k) ==> payload[k] == 0
  }

  /** `payload` carries the values of `fields`, and zeros everywhere else. */
  ghost predicate Carries(fields: seq<SignalField>, values: Values, payload: seq<Octet>) {
    && Inside(fields, |payload|) && AllInRange(fields, values)
    && (forall i :: 0 <= i < |fields| ==> Slice(payload, fields[i]) == PackValue(fields[i], values[fields[i].name]))
    && UnusedAreZero(fields, payload)
  }

  lemma SameCover(fields: seq<SignalField>, others: seq<SignalField>, k: nat)
    requires forall f :: f in fields <==> f in others
    ensures Covered(fields, k) <==> Covered(others, k)
  {
    if i :| 0 <= i < |fields| && fields[i].Covers(k) {
      assert fields[i] in others;
    }
    if j :| 0 <= j < |others| && others[j].Covers(k) {
      assert others[j] in fields;
    }
  }

  lemma CoverSnoc(fields: seq<SignalField>, f: SignalField, k: nat)
    ensures Covered(fields + [f], k) <==> Covered(fields, k) || f.Covers(k)
  {
    assert (fields + [f])[|fields|] == f;
    if i :| 0 <= i < |fields| && fields[i].Covers(k) {
      assert (fields + [f])[i].Covers(k);
    }
  }

  lemma SliceAt(payload: seq<Octet>, f: SignalField, k: nat)
    requires f.EndByte() <= |payload| && f.Covers(k)
    ensures Slice(payload, f)[k - f.byteOffset] == payload[k]
  {
  }

  /** There is at most one such payload of a given length, whatever the order of the
      fields. */
  lemma CarriesIsUnique(fields: seq<SignalField>, others: seq<SignalField>, values: Values, p: seq<Octet>, q: seq<Octet>)
    requires |p| == |q| && Carries(fields, values, p) && Carries(others, values, q)
    requires forall f :: f in fields <==> f in others
    ensures p == q
  {
    hide PackValue, InRange;
    forall k | 0 <= k < |p| ensures p[k] == q[k] {
      if Covered(fields, k) {
        var i :| 0 <= i < |fields| && fields[i].Covers(k);
        var f := fields[i];
        assert f in others;
        var j :| 0 <= j < |others| && others[j] == f;
        SliceAt(p, f, k);
        SliceAt(q, f, k);
      } else {
        SameCover(fields, others, k);
      }
    }
  }

  lemma SameLength(fields: seq<SignalField>, others: seq<SignalField>)
    requires forall f :: f in fields <==> f in others
    ensures RequiredLength(fields) == RequiredLength(others)
  {
    hide RequiredLength;
    forall n: nat ensures Inside(fields, n) <==> Inside(others, n) {
      assert Inside(fields, n) ==> forall f :: f in fields ==> f.EndByte() <= n;
      assert Inside(others, n) ==> forall f :: f in others ==> f.EndByte() <= n;
      assert (forall f :: f in fields ==> f.EndByte() <= n) ==> Inside(fields, n) && Inside(others, n);
    }
    RequiredLengthIsLeast(fields, RequiredLength(fields));
    RequiredLengthIsLeast(fields, RequiredLength(others));
    RequiredLengthIsLeast(others, RequiredLength(fields));
    RequiredLengthIsLeast(others, RequiredLength(others));
  }

  /** Listing the fields of a layout in another order does not change what is packed. */
  lemma FieldOrderDoesNotMatter(a: SignalLayout, b: SignalLayout, values: Values, p: seq<Octet>, q: seq<Octet>)
    requires a.frameLength == b.frameLength && forall f :: f in a.fields <==> f in b.fields
    requires |p| == a.EncodedLength() && Carries(a.fields, values, p)
    requires |q| == b.EncodedLength() && Carries(b.fields, values, q)
    ensures p == q
  {
    hide Carries, RequiredLength;
    SameLength(a.fields, b.fields);
    CarriesIsUnique(a.fields, b.fields, values, p, q);
  }

  /** `s` with `data` written at `at`. */
  function Spliced(s: seq<Octet>, at: nat, data: seq<Octet>): (r: seq<Octet>)
    requires at + |data| <= |s|
    ensures |r| == |s|
  {
    s[..at] + data + s[at + |data|..]
  }

  /** Overwrite part of a buffer in place. */
  method WriteSlice(a: array<Octet>, at: nat, data: seq<Octet>)
    requires at + |data| <= a.Length
    modifies a
    ensures a[..] == Spliced(old(a[..]), at, data)
  {
    for i := 0 to |data|
      invariant forall k :: 0 <= k < i ==> a[at + k] == data[k]
      invariant forall k :: 0 <= k < at || at + i <= k < a.Length ==> a[k] == old(a[k])
    {
      a[at + i] := data[i];
    }
    forall k | 0 <= k < a.Length ensures a[k] == Spliced(old(a[..]), at, data)[k] {
      if at <= k < at + |data| {
        assert a[at + (k - at)] == data[k - at];
      }
    }
  }

  lemma ZerosCarryNothing(values: Values, payload: seq<Octet>)
    requires forall k :: 0 <= k < |payload| ==> payload[k] == 0
    ensures Carries([], values, payload)
  {
  }

  lemma CarriedAreInRange(fields: seq<SignalField>, values: Values, payload: seq<Octet>)
    requires Carries(fields, values, payload)
    ensures AllInRange(fields, values)
  {
    hide PackValue, InRange;
  }

  /** Writing one more field keeps the fields apart from it. */
  lemma OneMoreField(fields: seq<SignalField>, values: Values, payload: seq<Octet>, f: SignalField)
    requires Carries(fields, values, payload) && f.EndByte() <= |payload|
    requires f.name in values && InRange(f, values[f.name])
    requires forall i :: 0 <= i < |fields| ==> Apart(fields[i], f)
    ensures Carries(fields + [f], values, Spliced(payload, f.byteOffset, PackValue(f, values[f.name])))
  {
    hide PackValue, InRange;
    var data := PackValue(f, values[f.name]);
    var longer := Spliced(payload, f.byteOffset, data);
    forall i | 0 <= i < |fields| ensures Slice(longer, fields[i]) == Slice(payload, fields[i]) {
    }
    assert Slice(longer, f) == data;
    forall k | 0 <= k < |longer| && !Covered(fields + [f], k) ensures longer[k] == 0 {
      CoverSnoc(fields, f, k);
    }
  }

  /** Pack one value for every field, and no other, into a fresh buffer. */
  method Pack(layout: SignalLayout, values: Values) returns (r: Result<seq<Octet>, SignalError>)
    requires ValidLayout(layout)
    ensures r.Ok? <==> values.Keys == Names(layout) && AllInRange(layout.fields, values)
    ensures r.Ok? ==> Carries(layout.fields, values, r.value)
    ensures r.Ok? ==> |r.value| == if layout.frameLength.Some? then layout.frameLength.value else RequiredLength(layout.fields)
    ensures r.Err? ==> (r.error ==
      if !(Names(layout) <= values.Keys) then MissingValues
      else if !(values.Keys <= Names(layout)) then UnexpectedValues
      else OutOfRange)
  {
    hide PackValue, InRange, Carries;
    if !(Names(layout) <= values.Keys) {
      return Err(MissingValues);
    }
    if !(values.Keys <= Names(layout)) {
      return Err(UnexpectedValues);
    }
    var fields := layout.fields;
    var payload := new Octet[layout.EncodedLength()](_ => 0);
    ZerosCarryNothing(values, payload[..]);
    for i := 0 to |fields|
      invariant Carries(fields[..i], values, payload[..])
    {
      var f := fields[i];
      assert f.name in Names(layout);
      if !InRange(f, values[f.name]) {
        return Err(OutOfRange);
      }
      assert fields[..i + 1] == fields[..i] + [f];
      OneMoreField(fields[..i], values, payload[..], f);
      WriteSlice(payload, f.byteOffset, PackValue(f, values[f.name]));
    }
    assert fields[..|fields|] == fields;
    CarriedAreInRange(fields, values, payload[..]);
    r := Ok(payload[..]);
  }

  function UnpackFields(fields: seq<SignalField>, payload: seq<Octet>): Values
    requires Inside(fields, |payload|)
  {
    if fields == [] then map[]
    else
      var f := fields[|fields| - 1];
      UnpackFields(fields[..|fields| - 1], payload)[f.name := UnpackValue(f, Slice(payload, f))]
  }

  /** Read every field of a payload of the right length. */
  function Unpack(layout: SignalLayout, payload: seq<Octet>): Result<Values, SignalError> {
    if |payload| < RequiredLength(layout.fields) then Err(PayloadTooShort)
    else if layout.frameLength.Some? && |payload| != layout.frameLength.value then Err(WrongPayloadLength)
    else
      RequiredLengthIsLeast(layout.fields, |payload|);
      Ok(UnpackFields(layout.fields, payload))
  }

  /** A payload is accepted exactly if it holds every field and, given a frame length, has it. */
  lemma UnpackAccepts(layout: SignalLayout, payload: seq<Octet>)
    ensures Unpack(layout, payload).Ok? <==>
      Inside(layout.fields, |payload|) && (layout.frameLength == None || layout.frameLength == Some(|payload|))
    ensures Unpack(layout, payload) == Err(PayloadTooShort) <==> !Inside(layout.fields, |payload|)
  {
    RequiredLengthIsLeast(layout.fields, |payload|);
  }

  /** `values` are what the fields of `payload` read as. */
  ghost predicate ReadsAs(fields: seq<SignalField>, payload: seq<Octet>, values: Values)
    requires Inside(fields, |payload|)
  {
    forall i :: 0 <= i < |fields| ==>
      fields[i].name in values && values[fields[i].name] == UnpackValue(fields[i], Slice(payload, fields[i]))
  }

  lemma CarriesIsRead(fields: seq<SignalField>, values: Values, payload: seq<Octet>)
    requires Inside(fields, |payload|)
    ensures Carries(fields, values, payload) <==> ReadsAs(fields, payload, values) && UnusedAreZero(fields, payload)
  {
    hide PackValue, UnpackValue, InRange, UnusedAreZero;
    forall i | 0 <= i < |fields| && fields[i].name in values
      ensures InRange(fields[i], values[fields[i].name])
        && Slice(payload, fields[i]) == PackValue(fields[i], values[fields[i].name])
        <==> values[fields[i].name] == UnpackValue(fields[i], Slice(payload, fields[i]))
    {
      ValueBijection(fields[i], values[fields[i].name], Slice(payload, fields[i]));
    }
  }

  lemma {:induction false} FieldsAreRead(fields: seq<SignalField>, payload: seq<Octet>)
    requires Inside(fields, |payload|) && UniqueNames(fields)
    ensures ReadsAs(fields, payload, UnpackFields(fields, payload))
    ensures forall name :: name in UnpackFields(fields, payload) <==> exists i :: 0 <= i < |fields| && fields[i].name == name
  {
    hide UnpackValue, Slice;
    if fields != [] {
      var n := |fields| - 1;
      FieldsAreRead(fields[..n], payload);
      assert forall i :: 0 <= i < n ==> fields[i] == fields[..n][i];
    }
  }

  lemma UnpackReads(layout: SignalLayout, values: Values, payload: seq<Octet>)
    requires ValidLayout(layout) && |payload| == layout.EncodedLength()
    ensures Unpack(layout, payload) == Ok(values) <==> ReadsAs(layout.fields, payload, values) && values.Keys == Names(layout)
  {
    hide UnpackValue, Slice, UnpackFields;
    RequiredLengthIsLeast(layout.fields, |payload|);
    FieldsAreRead(layout.fields, payload);
    var read := UnpackFields(layout.fields, payload);
    assert forall name :: name in read <==> name in Names(layout);
    if ReadsAs(layout.fields, payload, values) && values.Keys == Names(layout) {
      forall name | name in read ensures name in values && values[name] == read[name] {
        var i :| 0 <= i < |layout.fields| && layout.fields[i].name == name;
      }
      assert read == values;
    }
  }

  /** Unpacking what was packed gives the values back, and packing what was unpacked gives
      the payload back exactly when its unused bytes are zero. */
  lemma PackUnpackInverse(layout: SignalLayout, values: Values, payload: seq<Octet>)
    requires ValidLayout(layout) && |payload| == layout.EncodedLength()
    ensures Carries(layout.fields, values, payload) && values.Keys == Names(layout)
      <==> Unpack(layout, payload) == Ok(values) && UnusedAreZero(layout.fields, payload)
  {
    hide Carries, UnusedAreZero, ReadsAs, Unpack;
    CarriesIsRead(layout.fields, values, payload);
    UnpackReads(layout, values, payload);
  }
}
