/** Direct fault overrides: tables of overrides that expire by time or by cycle and are
    only cleaned when somebody looks. Lookups are proved to depend on nothing but the
    latest activation of their target. */
module FaultOverrides {
  import opened Common

  datatype Kind = StateOverride | SignalOverride

  datatype Override<V> = Override(
    kind: Kind, target: string, value: V, activatedAt: nat, activatedCycle: nat,
    expiresAt: Option<nat>, expiresAfterCycle: Option<nat>)

  predicate IsExpired<V>(o: Override<V>, now: nat, cycle: nat) {
    || (o.expiresAt.Some? && now >= o.expiresAt.value)
    || (o.expiresAfterCycle.Some? && cycle >= o.expiresAfterCycle.value)
  }

  function MakeOverride<V>(
    kind: Kind, target: string, value: V, duration: Option<nat>, cycles: Option<nat>, now: nat, cycle: nat): Override<V>
  {
    Override(kind, target, value, now, cycle,
             if duration.None? then None else Some(now + duration.value),
             if cycles.None? then None else Some(cycle + cycles.value))
  }

  type Table<V> = Dict<string, Override<V>>

  datatype Registry<V> = Registry(cycle: nat, states: Table<V>, signals: Table<V>) {
    function TableOf(kind: Kind): Table<V> {
      if kind == StateOverride then states else signals
    }

    function WithTable(kind: Kind, t: Table<V>): Registry<V> {
      if kind == StateOverride then this.(states := t) else this.(signals := t)
    }

    function Get(kind: Kind, target: string): Option<Override<V>> {
      TableOf(kind).Get(target)
    }
  }

  const NO_TARGETS: seq<string> := []

  function Nothing<V>(): Registry<V> {
    Registry(0, Dict(NO_TARGETS, map[]), Dict(NO_TARGETS, map[]))
  }

  // ---- Clearing expired overrides ----

  datatype Sweep<V> = Sweep(table: Table<V>, expired: seq<Override<V>>)

  /** Remove the expired overrides among `targets`, in that order. */
  function SweepTargets<V>(t: Table<V>, targets: seq<string>, now: nat, cycle: nat): Sweep<V> {
    if targets == [] then Sweep(t, [])
    else
      var n := |targets| - 1;
      var s := SweepTargets(t, targets[..n], now, cycle);
      var o := t.Get(targets[n]);
      if o.Some? && IsExpired(o.value, now, cycle) then Sweep(s.table.Remove(targets[n]), s.expired + [o.value]) else s
  }

  function SweepTable<V>(t: Table<V>, now: nat, cycle: nat): Sweep<V> {
    SweepTargets(t, t.keys, now, cycle)
  }

  /** Everything that leaves the tables in one operation, in order. */
  datatype Outcome<V> = Outcome(registry: Registry<V>, left: seq<Override<V>>)

  function Cleared<V>(r: Registry<V>, now: nat): Outcome<V> {
    var states := SweepTable(r.states, now, r.cycle);
    var signals := SweepTable(r.signals, now, r.cycle);
    Outcome(Registry(r.cycle, states.table, signals.table), states.expired + signals.expired)
  }

  // ---- Operations and runs ----

  datatype Op<V> =
    | Activate(kind: Kind, target: string, value: V, duration: Option<nat>, cycles: Option<nat>, now: nat)
    | Clear(kind: Kind, target: string)
    | ClearAll
    | AdvanceCycles(count: nat, now: nat)
    | Look(now: nat)

  function ToSeq<V>(o: Option<V>): seq<V> {
    if o.None? then [] else [o.value]
  }

  /** The overrides of `targets`, in that order. */
  function Listed<V>(t: Table<V>, targets: seq<string>): seq<Override<V>> {
    if targets == [] then []
    else Listed(t, targets[..|targets| - 1]) + ToSeq(t.Get(targets[|targets| - 1]))
  }

  /** Activating may replace, clearing may remove, and every look clears what expired. */
  function Apply<V>(r: Registry<V>, op: Op<V>): Outcome<V> {
    match op
    case Activate(kind, target, value, duration, cycles, now) =>
      var o := MakeOverride(kind, target, value, duration, cycles, now, r.cycle);
      Outcome(r.WithTable(kind, r.TableOf(kind).Put(target, o)), ToSeq(r.Get(kind, target)))
    case Clear(kind, target) =>
      Outcome(r.WithTable(kind, r.TableOf(kind).Remove(target)), ToSeq(r.Get(kind, target)))
    case ClearAll =>
      Outcome(Nothing().(cycle := r.cycle), Listed(r.states, r.states.keys) + Listed(r.signals, r.signals.keys))
    case AdvanceCycles(count, now) => Cleared(r.(cycle := r.cycle + count), now)
    case Look(now) => Cleared(r, now)
  }

  function Run<V>(ops: seq<Op<V>>): Outcome<V> {
    if ops == [] then Outcome(Nothing(), [])
    else
      var before := Run(ops[..|ops| - 1]);
      var last := Apply(before.registry, ops[|ops| - 1]);
      Outcome(last.registry, before.left + last.left)
  }

  lemma RunSnoc<V>(ops: seq<Op<V>>, op: Op<V>)
    ensures Run(ops + [op]).registry == Apply(Run(ops).registry, op).registry
  {
    hide Apply;
    assert (ops + [op])[..|ops|] == ops;
  }

  /** What a lookup answers: the override of the target, once the expired are cleared. */
  function Lookup<V>(r: Registry<V>, kind: Kind, target: string, now: nat): Option<Override<V>> {
    Cleared(r, now).registry.Get(kind, target)
  }

  // ---- One target ----

  ghost predicate TableOk<V>(t: Table<V>, kind: Kind) {
    t.Valid() && forall k :: k in t.items ==> t.items[k].kind == kind && t.items[k].target == k
  }

  ghost predicate RegistryOk<V>(r: Registry<V>) {
    TableOk(r.states, StateOverride) && TableOk(r.signals, SignalOverride)
  }

  /** Those of `left` that concern one target. */
  function About<V>(left: seq<Override<V>>, kind: Kind, target: string): seq<Override<V>> {
    if left == [] then []
    else
      var o := left[|left| - 1];
      About(left[..|left| - 1], kind, target) + if o.kind == kind && o.target == target then [o] else []
  }

  lemma AboutSnoc<V>(left: seq<Override<V>>, o: Override<V>, kind: Kind, target: string)
    ensures About(left + [o], kind, target)
      == About(left, kind, target) + if o.kind == kind && o.target == target then [o] else []
  {
    assert (left + [o])[..|left|] == left;
  }

  lemma {:induction false} AboutAppend<V>(a: seq<Override<V>>, b: seq<Override<V>>, kind: Kind, target: string)
    ensures About(a + b, kind, target) == About(a, kind, target) + About(b, kind, target)
  {
    hide About;
    if b == [] {
      assert a + b == a;
      NothingAbout<V>(kind, target);
    } else {
      var n := |b| - 1;
      AboutAppend(a, b[..n], kind, target);
      AboutSnoc(a + b[..n], b[n], kind, target);
      AboutSnoc(b[..n], b[n], kind, target);
      assert a + b == a + b[..n] + [b[n]] && b == b[..n] + [b[n]];
    }
  }

  /** What is left of one entry at an instant. */
  function Unexpired<V>(entry: Option<Override<V>>, now: nat, cycle: nat): Option<Override<V>> {
    if entry.Some? && IsExpired(entry.value, now, cycle) then None else entry
  }

  lemma SetAt<V>(t: Table<V>, kind: Kind, k: string, entry: Option<Override<V>>)
    requires TableOk(t, kind) && (entry.Some? ==> entry.value.kind == kind && entry.value.target == k)
    ensures TableOk(t.Set(k, entry), kind)
    ensures forall other :: t.Set(k, entry).Get(other) == if other == k then entry else t.Get(other)
  {
  }

  lemma SweepSnoc<V>(t: Table<V>, targets: seq<string>, now: nat, cycle: nat)
    requires targets != []
    ensures var n := |targets| - 1; var s := SweepTargets(t, targets[..n], now, cycle); var o := t.Get(targets[n]);
      SweepTargets(t, targets, now, cycle) ==
        if o.Some? && IsExpired(o.value, now, cycle) then Sweep(s.table.Set(targets[n], None), s.expired + [o.value]) else s
  {
  }

  /** Sweeping removes exactly the expired, and reports each once. */
  lemma {:induction false} SweepIsExact<V>(t: Table<V>, kind: Kind, targets: seq<string>, now: nat, cycle: nat, k: string)
    requires TableOk(t, kind) && NoDuplicates(targets)
    ensures var s := SweepTargets(t, targets, now, cycle);
      && TableOk(s.table, kind)
      && s.table.Get(k) == (if k in targets then Unexpired(t.Get(k), now, cycle) else t.Get(k))
      && About(s.expired, kind, k)
         == (if k in targets && Unexpired(t.Get(k), now, cycle) == None then ToSeq(t.Get(k)) else [])
  {
    hide IsExpired, About, TableOk, SweepTargets, Dict.Get, Dict.Set;
    if targets == [] {
      SweepNothing(t, kind, now, cycle, k);
    } else {
      var n := |targets| - 1;
      var target := targets[n];
      assert forall x :: x in targets <==> x in targets[..n] || x == target;
      assert target !in targets[..n];
      SweepIsExact(t, kind, targets[..n], now, cycle, k);
      SweepSnoc(t, targets, now, cycle);
      var s := SweepTargets(t, targets[..n], now, cycle);
      var o := t.Get(target);
      if o.Some? && IsExpired(o.value, now, cycle) {
        EntryOk(t, kind, target);
        SetAt(s.table, kind, target, None);
        AboutSnoc(s.expired, o.value, kind, k);
      }
    }
  }

  lemma SweepNothing<V>(t: Table<V>, kind: Kind, now: nat, cycle: nat, k: string)
    ensures SweepTargets(t, [], now, cycle) == Sweep(t, []) && About<V>([], kind, k) == []
  {
  }

  lemma EntryOk<V>(t: Table<V>, kind: Kind, k: string)
    requires TableOk(t, kind) && t.Get(k).Some?
    ensures t.Get(k).value.kind == kind && t.Get(k).value.target == k
  {
  }

  /** Nothing of another kind is reported. */
  lemma {:induction false} SweepKeepsToItsKind<V>(t: Table<V>, kind: Kind, targets: seq<string>, now: nat, cycle: nat,
                                                  other: Kind, k: string)
    requires TableOk(t, kind) && other != kind
    ensures About(SweepTargets(t, targets, now, cycle).expired, other, k) == []
  {
    hide IsExpired, About, TableOk, SweepTargets, Dict.Get, Dict.Set;
    if targets == [] {
      SweepNothing(t, other, now, cycle, k);
    } else {
      var n := |targets| - 1;
      SweepKeepsToItsKind(t, kind, targets[..n], now, cycle, other, k);
      SweepSnoc(t, targets, now, cycle);
      var o := t.Get(targets[n]);
      if o.Some? && IsExpired(o.value, now, cycle) {
        EntryOk(t, kind, targets[n]);
        AboutSnoc(SweepTargets(t, targets[..n], now, cycle).expired, o.value, other, k);
      }
    }
  }

  lemma SweepTableIsExact<V>(t: Table<V>, kind: Kind, now: nat, cycle: nat, k: string)
    requires TableOk(t, kind)
    ensures var s := SweepTable(t, now, cycle); var after := Unexpired(t.Get(k), now, cycle);
      && TableOk(s.table, kind) && s.table.Get(k) == after
      && About(s.expired, kind, k) + ToSeq(after) == ToSeq(t.Get(k))
  {
    hide SweepTargets, IsExpired;
    SweepIsExact(t, kind, t.keys, now, cycle, k);
  }

  /** What one operation does to the entry of one target. */
  function EntryAfter<V>(op: Op<V>, entry: Option<Override<V>>, kind: Kind, target: string, cycle: nat): Option<Override<V>> {
    match op
    case Activate(k, t, value, duration, cycles, now) =>
      if k == kind && t == target then Some(MakeOverride(kind, target, value, duration, cycles, now, cycle)) else entry
    case Clear(k, t) => if k == kind && t == target then None else entry
    case ClearAll => None
    case AdvanceCycles(count, now) => Unexpired(entry, now, cycle + count)
    case Look(now) => Unexpired(entry, now, cycle)
  }

  function CycleStep<V>(op: Op<V>, cycle: nat): nat {
    if op.AdvanceCycles? then cycle + op.count else cycle
  }

  predicate Activates<V>(op: Op<V>, kind: Kind, target: string) {
    op.Activate? && op.kind == kind && op.target == target
  }

  lemma ClearExpiredAt<V>(r: Registry<V>, now: nat, kind: Kind, target: string)
    requires RegistryOk(r)
    ensures var s := Cleared(r, now); var after := Unexpired(r.Get(kind, target), now, r.cycle);
      && RegistryOk(s.registry) && s.registry.cycle == r.cycle && s.registry.Get(kind, target) == after
      && About(s.left, kind, target) + ToSeq(after) == ToSeq(r.Get(kind, target))
  {
    hide SweepTargets, IsExpired, TableOk, About;
    SweepTableIsExact(r.states, StateOverride, now, r.cycle, target);
    SweepTableIsExact(r.signals, SignalOverride, now, r.cycle, target);
    var other := if kind == StateOverride then SignalOverride else StateOverride;
    SweepKeepsToItsKind(r.TableOf(other), other, r.TableOf(other).keys, now, r.cycle, kind, target);
    AboutAppend(SweepTable(r.states, now, r.cycle).expired, SweepTable(r.signals, now, r.cycle).expired, kind, target);
  }

  /** Listing a table reports each of its entries once, and nothing of another kind. */
  lemma {:induction false} ListedIsExact<V>(t: Table<V>, kind: Kind, targets: seq<string>, other: Kind, k: string)
    requires TableOk(t, kind) && NoDuplicates(targets)
    ensures About(Listed(t, targets), other, k) == if other == kind && k in targets then ToSeq(t.Get(k)) else []
  {
    hide About, TableOk, Dict.Get;
    if targets == [] {
      NothingAbout<V>(other, k);
    } else {
      var n := |targets| - 1;
      var target := targets[n];
      assert forall x :: x in targets <==> x in targets[..n] || x == target;
      assert target !in targets[..n];
      ListedIsExact(t, kind, targets[..n], other, k);
      var o := t.Get(target);
      AboutAppend(Listed(t, targets[..n]), ToSeq(o), other, k);
      AboutOne(o, other, k);
      if o.Some? {
        EntryOk(t, kind, target);
      }
    }
  }

  lemma AllKeysListed<V>(t: Table<V>, kind: Kind, other: Kind, k: string)
    requires TableOk(t, kind)
    ensures About(Listed(t, t.keys), other, k) == if other == kind then ToSeq(t.Get(k)) else []
  {
    hide About, Listed;
    ListedIsExact(t, kind, t.keys, other, k);
  }

  lemma ClearAllAt<V>(r: Registry<V>, kind: Kind, target: string)
    requires RegistryOk(r)
    ensures RegistryOk(Nothing<V>().(cycle := r.cycle)) && Nothing<V>().(cycle := r.cycle).Get(kind, target) == None
    ensures About(Listed(r.states, r.states.keys) + Listed(r.signals, r.signals.keys), kind, target)
      == ToSeq(r.Get(kind, target))
  {
    hide About, Listed;
    AllKeysListed(r.states, StateOverride, kind, target);
    AllKeysListed(r.signals, SignalOverride, kind, target);
    AboutAppend(Listed(r.states, r.states.keys), Listed(r.signals, r.signals.keys), kind, target);
  }

  lemma AboutOne<V>(entry: Option<Override<V>>, kind: Kind, target: string)
    ensures About(ToSeq(entry), kind, target) ==
      if entry.Some? && entry.value.kind == kind && entry.value.target == target then ToSeq(entry) else []
  {
    if entry.Some? {
      assert ToSeq(entry)[..0] == [] && About(ToSeq(entry)[..0], kind, target) == [];
    }
  }

  /** One operation, seen at one target: how its entry changes, and that whatever
      leaves it is what was there before. */
  lemma ApplyAt<V>(r: Registry<V>, op: Op<V>, kind: Kind, target: string)
    requires RegistryOk(r)
    ensures var s := Apply(r, op); var entry := r.Get(kind, target); var after := EntryAfter(op, entry, kind, target, r.cycle);
      && RegistryOk(s.registry) && s.registry.cycle == CycleStep(op, r.cycle) && s.registry.Get(kind, target) == after
      && About(s.left, kind, target) + (if Activates(op, kind, target) then [] else ToSeq(after)) == ToSeq(entry)
  {
    hide Cleared, Listed, IsExpired, TableOk, About, Dict.Put, Dict.Remove, Dict.Get;
    match op
    case AdvanceCycles(count, now) => ClearExpiredAt(r.(cycle := r.cycle + count), now, kind, target);
    case Look(now) => ClearExpiredAt(r, now, kind, target);
    case ClearAll => ClearAllAt(r, kind, target);
    case _ =>
      if r.Get(op.kind, op.target).Some? {
        EntryOk(r.TableOf(op.kind), op.kind, op.target);
      }
      SetAt(r.TableOf(op.kind), op.kind, op.target, EntryAfter(op, r.Get(op.kind, op.target), op.kind, op.target, r.cycle));
      AboutOne(r.Get(op.kind, op.target), kind, target);
  }

  // ---- What lookups answer ----

  function CycleAfter<V>(ops: seq<Op<V>>): nat {
    if ops == [] then 0 else CycleStep(ops[|ops| - 1], CycleAfter(ops[..|ops| - 1]))
  }

  /** Operations that set entries, rather than letting them expire. */
  predicate Sets<V>(op: Op<V>) {
    op.Activate? || op.Clear? || op.ClearAll?
  }

  /** The latest activation of a target that was not cleared since; expiry plays no part. */
  function Latest<V>(ops: seq<Op<V>>, kind: Kind, target: string): Option<Override<V>> {
    if ops == [] then None
    else
      var before := ops[..|ops| - 1];
      var op := ops[|ops| - 1];
      if Sets(op) then EntryAfter(op, Latest(before, kind, target), kind, target, CycleAfter(before))
      else Latest(before, kind, target)
  }

  function TimeOf<V>(op: Op<V>): Option<nat> {
    if op.Clear? || op.ClearAll? then None else Some(op.now)
  }

  ghost predicate NoneLater<V>(ops: seq<Op<V>>, now: nat) {
    forall i :: 0 <= i < |ops| && TimeOf(ops[i]).Some? ==> TimeOf(ops[i]).value <= now
  }

  ghost predicate TimeAdvances<V>(ops: seq<Op<V>>) {
    forall i :: 0 <= i < |ops| && TimeOf(ops[i]).Some? ==> NoneLater(ops[..i], TimeOf(ops[i]).value)
  }

  /** The entry of a target is its latest activation, unless that has already expired. */
  ghost predicate EntryIsLatest<V>(ops: seq<Op<V>>, entry: Option<Override<V>>, latest: Option<Override<V>>, cycle: nat) {
    || entry == latest
    || (entry.None? && latest.Some? && forall now: nat :: NoneLater(ops, now) ==> IsExpired(latest.value, now, cycle))
  }

  lemma EntryStep<V>(ops: seq<Op<V>>, op: Op<V>, entry: Option<Override<V>>, latest: Option<Override<V>>, cycle: nat,
                     kind: Kind, target: string)
    requires EntryIsLatest(ops, entry, latest, cycle)
    requires TimeOf(op).Some? ==> NoneLater(ops, TimeOf(op).value)
    ensures EntryIsLatest(ops + [op], EntryAfter(op, entry, kind, target, cycle),
      if Sets(op) then EntryAfter(op, latest, kind, target, cycle) else latest, CycleStep(op, cycle))
  {
    forall now: nat | NoneLater(ops + [op], now)
      ensures NoneLater(ops, now) && (TimeOf(op).Some? ==> TimeOf(op).value <= now)
    {
      assert (ops + [op])[|ops|] == op;
      assert forall i :: 0 <= i < |ops| ==> (ops + [op])[i] == ops[i];
    }
  }

  lemma {:induction false} TableFollowsHistory<V>(ops: seq<Op<V>>, kind: Kind, target: string)
    ensures var r := Run(ops).registry;
      && RegistryOk(r) && r.cycle == CycleAfter(ops)
      && (TimeAdvances(ops) ==> EntryIsLatest(ops, r.Get(kind, target), Latest(ops, kind, target), r.cycle))
  {
    hide Apply, EntryAfter, EntryIsLatest, Unexpired, RegistryOk, NoneLater;
    if ops == [] {
      EmptyIsOk<V>();
      SameEntry(ops, Run(ops).registry.Get(kind, target), Run(ops).registry.cycle);
    } else {
      var n := |ops| - 1;
      TableFollowsHistory(ops[..n], kind, target);
      var r := Run(ops[..n]).registry;
      ApplyAt(r, ops[n], kind, target);
      if TimeAdvances(ops) {
        assert forall i :: 0 <= i < n ==> ops[..n][..i] == ops[..i];
        assert ops == ops[..n] + [ops[n]];
        EntryStep(ops[..n], ops[n], r.Get(kind, target), Latest(ops[..n], kind, target), r.cycle, kind, target);
      }
    }
  }

  lemma SameEntry<V>(ops: seq<Op<V>>, entry: Option<Override<V>>, cycle: nat)
    ensures EntryIsLatest(ops, entry, entry, cycle)
  {
  }

  lemma EmptyIsOk<V>()
    ensures RegistryOk(Nothing<V>())
  {
  }

  /** While time does not go back, a lookup answers the latest activation of its target
      if that is neither cleared nor expired, and otherwise nothing. */
  lemma LookupIsExact<V>(ops: seq<Op<V>>, kind: Kind, target: string, now: nat)
    requires TimeAdvances(ops) && NoneLater(ops, now)
    ensures Lookup(Run(ops).registry, kind, target, now) == Unexpired(Latest(ops, kind, target), now, CycleAfter(ops))
  {
    hide Run, Latest, RegistryOk, Cleared, TimeAdvances;
    TableFollowsHistory(ops, kind, target);
    ClearExpiredAt(Run(ops).registry, now, kind, target);
  }

  lemma {:induction false} LatestStands<V>(before: seq<Op<V>>, after: seq<Op<V>>, kind: Kind, target: string)
    requires forall i :: 0 <= i < |after| ==> !Activates(after[i], kind, target)
    ensures Latest(before + after, kind, target) == Latest(before, kind, target) || Latest(before + after, kind, target) == None
  {
    if after == [] {
      assert before + after == before;
    } else {
      var n := |after| - 1;
      LatestStands(before, after[..n], kind, target);
      assert (before + after)[..|before| + n] == before + after[..n];
    }
  }

  /** An activation replaces all earlier ones for good: whatever their durations, a later
      lookup answers that activation or nothing, until the target is activated again. */
  lemma OlderNeverReturns<V>(before: seq<Op<V>>, op: Op<V>, after: seq<Op<V>>, now: nat)
    requires op.Activate? && TimeAdvances(before + [op] + after) && NoneLater(before + [op] + after, now)
    requires forall i :: 0 <= i < |after| ==> !Activates(after[i], op.kind, op.target)
    ensures var o := MakeOverride(op.kind, op.target, op.value, op.duration, op.cycles, op.now, CycleAfter(before));
      var found := Lookup(Run(before + [op] + after).registry, op.kind, op.target, now);
      found == None || found == Some(o)
  {
    hide TimeAdvances, NoneLater, Run, Lookup;
    LookupIsExact(before + [op] + after, op.kind, op.target, now);
    LatestStands(before + [op], after, op.kind, op.target);
    assert (before + [op])[..|before|] == before;
  }

  /** How far the cycle counter advances in `ops`. */
  function CyclesIn<V>(ops: seq<Op<V>>): nat {
    if ops == [] then 0
    else CyclesIn(ops[..|ops| - 1]) + if ops[|ops| - 1].AdvanceCycles? then ops[|ops| - 1].count else 0
  }

  /** `op` neither activates nor clears the target. */
  predicate LeavesAlone<V>(op: Op<V>, kind: Kind, target: string) {
    match op
    case Activate(k, t, _, _, _, _) => k != kind || t != target
    case Clear(k, t) => k != kind || t != target
    case ClearAll => false
    case AdvanceCycles(_, _) => true
    case Look(_) => true
  }

  lemma {:induction false} LatestKept<V>(before: seq<Op<V>>, after: seq<Op<V>>, kind: Kind, target: string)
    requires forall i :: 0 <= i < |after| ==> LeavesAlone(after[i], kind, target)
    ensures Latest(before + after, kind, target) == Latest(before, kind, target)
    ensures CycleAfter(before + after) == CycleAfter(before) + CyclesIn(after)
  {
    if after == [] {
      assert before + after == before;
    } else {
      var n := |after| - 1;
      LatestKept(before, after[..n], kind, target);
      assert (before + after)[..|before| + n] == before + after[..n];
      assert (before + after)[|before| + n] == after[n];
    }
  }

  /** How long an override lasts, while its target is left alone: lookups answer its value
      strictly before its duration is over and strictly before its cycles have passed, and
      nothing from then on. */
  lemma OverrideLasts<V>(before: seq<Op<V>>, op: Op<V>, after: seq<Op<V>>, now: nat)
    requires op.Activate? && TimeAdvances(before + [op] + after) && NoneLater(before + [op] + after, now)
    requires forall i :: 0 <= i < |after| ==> LeavesAlone(after[i], op.kind, op.target)
    ensures var found := Lookup(Run(before + [op] + after).registry, op.kind, op.target, now);
      && (found.Some? <==>
            && (op.duration == None || now < op.now + op.duration.value)
            && (op.cycles == None || CyclesIn(after) < op.cycles.value))
      && (found.Some? ==>
            && found.value.value == op.value && found.value.kind == op.kind && found.value.target == op.target
            && found.value.activatedAt == op.now && found.value.activatedCycle == CycleAfter(before))
  {
    hide TimeAdvances, NoneLater, Run, Lookup, LeavesAlone, CyclesIn;
    LookupIsExact(before + [op] + after, op.kind, op.target, now);
    LatestKept(before + [op], after, op.kind, op.target);
    assert (before + [op])[..|before|] == before;
  }

  /** Clearing reports the state overrides before the signal overrides. */
  lemma StatesComeFirst<V>(r: Registry<V>, now: nat)
    requires RegistryOk(r)
    ensures var left := Cleared(r, now).left;
      forall i, j :: 0 <= i < j < |left| && left[i].kind == SignalOverride ==> left[j].kind == SignalOverride
  {
    hide TableOk, SweepTargets;
    SweptKind(r.states, StateOverride, r.states.keys, now, r.cycle);
    SweptKind(r.signals, SignalOverride, r.signals.keys, now, r.cycle);
  }

  /** A sweep reports expired overrides of its table, in table order. */
  lemma {:induction false} SweptKind<V>(t: Table<V>, kind: Kind, targets: seq<string>, now: nat, cycle: nat)
    requires TableOk(t, kind)
    ensures var expired := SweepTargets(t, targets, now, cycle).expired;
      && (forall i :: 0 <= i < |expired| ==> expired[i].kind == kind)
      && Targets(expired) == Within(targets, set k | k in t.items && IsExpired(t.items[k], now, cycle))
  {
    hide TableOk, SweepTargets, IsExpired, Dict.Get, Dict.Set;
    var gone := set k | k in t.items && IsExpired(t.items[k], now, cycle);
    if targets == [] {
      SweepNothing(t, kind, now, cycle, "");
    } else {
      var n := |targets| - 1;
      SweptKind(t, kind, targets[..n], now, cycle);
      SweepSnoc(t, targets, now, cycle);
      assert targets == targets[..n] + [targets[n]];
      WithinSnoc(targets[..n], targets[n], gone);
      GetIsLookup(t, targets[n]);
      var o := t.Get(targets[n]);
      if o.Some? && IsExpired(o.value, now, cycle) {
        EntryOk(t, kind, targets[n]);
        TargetsSnoc(SweepTargets(t, targets[..n], now, cycle).expired, o.value);
      } else {
        assert Within(targets[..n], gone) + [] == Within(targets[..n], gone);
      }
    }
  }

  lemma GetIsLookup<V>(t: Table<V>, k: string)
    ensures t.Get(k) == if k in t.items then Some(t.items[k]) else None
  {
  }

  function Targets<V>(overrides: seq<Override<V>>): seq<string> {
    seq(|overrides|, i requires 0 <= i < |overrides| => overrides[i].target)
  }

  lemma TargetsSnoc<V>(overrides: seq<Override<V>>, o: Override<V>)
    ensures Targets(overrides + [o]) == Targets(overrides) + [o.target]
  {
  }

  // ---- Every activation leaves once ----

  /** The overrides activated for one target, in order. */
  function Activations<V>(ops: seq<Op<V>>, kind: Kind, target: string): seq<Override<V>> {
    if ops == [] then []
    else
      var before := ops[..|ops| - 1];
      var op := ops[|ops| - 1];
      Activations(before, kind, target)
      + if Activates(op, kind, target) then ToSeq(EntryAfter(op, None, kind, target, CycleAfter(before))) else []
  }

  /** The overrides of a target leave in the order in which they were activated, each
      once, and only the latest can still be there. */
  lemma {:induction false} EachActivationLeavesOnce<V>(ops: seq<Op<V>>, kind: Kind, target: string)
    ensures var r := Run(ops);
      About(r.left, kind, target) + ToSeq(r.registry.Get(kind, target)) == Activations(ops, kind, target)
  {
    hide Apply, Unexpired, RegistryOk, About;
    if ops == [] {
      assert About<V>([], kind, target) == [] by { NothingAbout<V>(kind, target); }
    } else {
      var n := |ops| - 1;
      EachActivationLeavesOnce(ops[..n], kind, target);
      TableFollowsHistory(ops[..n], kind, target);
      var before := Run(ops[..n]);
      var op := ops[n];
      ApplyAt(before.registry, op, kind, target);
      AboutAppend(before.left, Apply(before.registry, op).left, kind, target);
      var was, now := ToSeq(before.registry.Get(kind, target)), ToSeq(Run(ops).registry.Get(kind, target));
      var left := About(Apply(before.registry, op).left, kind, target);
      if Activates(op, kind, target) {
        assert left == was;
      } else {
        assert left + now == was;
        assert About(before.left, kind, target) + left + now == About(before.left, kind, target) + was;
      }
    }
  }

  lemma NothingAbout<V>(kind: Kind, target: string)
    ensures About<V>([], kind, target) == []
  {
  }

  // ---- The engine object ----

  class FaultInjectionEngine<V> {
    var cycle: nat
    var stateOverrides: Table<V>
    var signalOverrides: Table<V>
    /** Everything asked of this engine so far. */
    ghost var ops: seq<Op<V>>

    ghost function View(): Registry<V>
      reads this
    {
      Registry(cycle, stateOverrides, signalOverrides)
    }

    ghost predicate Valid()
      reads this
    {
      Run(ops).registry == View()
    }

    constructor ()
      ensures Valid() && ops == []
    {
      cycle, stateOverrides, signalOverrides, ops := 0, Dict(NO_TARGETS, map[]), Dict(NO_TARGETS, map[]), [];
    }

    /** Activate or replace an override. */
    method ActivateOverride(kind: Kind, target: string, value: V, duration: Option<nat>, cycles: Option<nat>, now: nat)
      returns (o: Override<V>)
      requires Valid()
      modifies this
      ensures Valid() && ops == old(ops) + [Activate(kind, target, value, duration, cycles, now)]
      ensures o == MakeOverride(kind, target, value, duration, cycles, now, old(cycle))
      ensures Some(o) == Latest(ops, kind, target)
    {
      o := MakeOverride(kind, target, value, duration, cycles, now, cycle);
      if kind == StateOverride {
        stateOverrides := stateOverrides.Put(target, o);
      } else {
        signalOverrides := signalOverrides.Put(target, o);
      }
      ghost var before := ops;
      ops := ops + [Activate(kind, target, value, duration, cycles, now)];
      assert ops[..|before|] == before;
      TableFollowsHistory(before, kind, target);
    }

    method RemoveEntry(kind: Kind, target: string) returns (removed: Option<Override<V>>)
      modifies this`stateOverrides, this`signalOverrides
      ensures Outcome(View(), ToSeq(removed)) == Apply(old(View()), Clear(kind, target))
    {
      hide Cleared, Listed;
      if kind == StateOverride {
        removed := stateOverrides.Get(target);
        stateOverrides := stateOverrides.Remove(target);
      } else {
        removed := signalOverrides.Get(target);
        signalOverrides := signalOverrides.Remove(target);
      }
    }

    /** Clear an override explicitly. */
    method ClearOverride(kind: Kind, target: string) returns (removed: Option<Override<V>>)
      requires Valid()
      modifies this
      ensures Valid() && ops == old(ops) + [Clear(kind, target)]
      ensures Outcome(View(), ToSeq(removed)) == Apply(old(View()), Clear(kind, target))
    {
      hide Run, Apply;
      RunSnoc(ops, Clear(kind, target));
      removed := RemoveEntry(kind, target);
      ops := ops + [Clear(kind, target)];
    }

    /** Clear every override. */
    method ClearAll()
      requires Valid()
      modifies this
      ensures Valid() && ops == old(ops) + [Op.ClearAll]
      ensures forall kind, target :: View().Get(kind, target) == None
    {
      hide Run, Listed;
      RunSnoc(ops, Op.ClearAll);
      stateOverrides, signalOverrides := Dict(NO_TARGETS, map[]), Dict(NO_TARGETS, map[]);
      ops := ops + [Op.ClearAll];
    }

    /** Remove the expired overrides of one table, walking a snapshot of its entries. */
    method DeleteExpired(snapshot: Table<V>, now: nat) returns (kept: Table<V>, expired: seq<Override<V>>)
      ensures Sweep(kept, expired) == SweepTable(snapshot, now, cycle)
    {
      kept, expired := snapshot, [];
      var targets := snapshot.keys;
      for i := 0 to |targets|
        invariant Sweep(kept, expired) == SweepTargets(snapshot, targets[..i], now, cycle)
      {
        assert targets[..i + 1][..i] == targets[..i];
        var o := snapshot.Get(targets[i]);
        if o.Some? && IsExpired(o.value, now, cycle) {
          expired := expired + [o.value];
          kept := kept.Remove(targets[i]);
        }
      }
      assert targets[..|targets|] == targets;
    }

    /** Clear what has expired in both tables, state overrides first. */
    method ClearBoth(now: nat) returns (expired: seq<Override<V>>)
      modifies this`stateOverrides, this`signalOverrides
      ensures Outcome(View(), expired) == Cleared(old(View()), now)
    {
      var states, expiredStates := DeleteExpired(stateOverrides, now);
      var signals, expiredSignals := DeleteExpired(signalOverrides, now);
      stateOverrides, signalOverrides := states, signals;
      expired := expiredStates + expiredSignals;
    }

    method ClearExpired(now: nat) returns (expired: seq<Override<V>>)
      requires Valid()
      modifies this
      ensures Valid() && ops == old(ops) + [Look(now)]
      ensures Outcome(View(), expired) == Apply(old(View()), Look(now))
    {
      hide Run, SweepTable;
      RunSnoc(ops, Look(now));
      expired := ClearBoth(now);
      ops := ops + [Look(now)];
    }

    /** Advance the cycle counter and clear what expires by it. */
    method AdvanceCycles(count: nat, now: nat) returns (expired: seq<Override<V>>)
      requires Valid()
      modifies this
      ensures Valid() && ops == old(ops) + [Op.AdvanceCycles(count, now)]
      ensures Outcome(View(), expired) == Apply(old(View()), Op.AdvanceCycles(count, now))
    {
      hide Run, SweepTable;
      RunSnoc(ops, Op.AdvanceCycles(count, now));
      cycle := cycle + count;
      expired := ClearBoth(now);
      ops := ops + [Op.AdvanceCycles(count, now)];
    }

    /** The active override of a target, if any. */
    method GetOverride(kind: Kind, target: string, now: nat) returns (found: Option<Override<V>>)
      requires Valid()
      modifies this
      ensures Valid() && ops == old(ops) + [Look(now)]
      ensures TimeAdvances(old(ops)) && NoneLater(old(ops), now) ==>
        found == Unexpired(Latest(old(ops), kind, target), now, cycle)
    {
      hide Run, Latest, Unexpired, TimeAdvances, NoneLater, SweepTable;
      ghost var before := ops;
      if TimeAdvances(before) && NoneLater(before, now) {
        LookupIsExact(before, kind, target, now);
      }
      TableFollowsHistory(before, kind, target);
      var _ := ClearExpired(now);
      found := if kind == StateOverride then stateOverrides.Get(target) else signalOverrides.Get(target);
    }
  }
}
