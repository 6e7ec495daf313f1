/** The rules of the on-board computer peer: a threshold on one telemetry signal, which
    must hold for a while, and a cooldown between firings. The two timing fields of a
    rule are proved to agree with what the whole history of its samples says. */
module ObcRules {
  import opened Common

  datatype ThresholdOperator = LT | LTE | GT | GTE

  datatype Condition = Condition(signal: string, operator: ThresholdOperator, threshold: real)

  datatype Rule = Rule(name: string, condition: Condition, forDuration: nat, cooldown: nat)

  function Satisfies(c: Condition, value: real): bool {
    match c.operator
    case LT => value < c.threshold
    case LTE => value <= c.threshold
    case GT => value > c.threshold
    case GTE => value >= c.threshold
  }

  // ---- One rule, as the program keeps it ----

  /** When the condition began to hold, and when the rule last fired. */
  datatype RuleState = RuleState(conditionSince: Option<nat>, lastTriggeredAt: Option<nat>)

  const IDLE := RuleState(None, None)

  /** One sample of the rule's signal, as far as the rule is concerned. */
  datatype Sample = Sample(time: nat, matches: bool)

  datatype RuleStep = RuleStep(state: RuleState, fires: bool)

  function StepRule(rule: Rule, st: RuleState, x: Sample): RuleStep {
    if !x.matches then RuleStep(st.(conditionSince := None), false)
    else
      var since := if st.conditionSince.None? then x.time else st.conditionSince.value;
      var held := st.(conditionSince := Some(since));
      if x.time - since < rule.forDuration then RuleStep(held, false)
      else if st.lastTriggeredAt.Some? && x.time - st.lastTriggeredAt.value < rule.cooldown then RuleStep(held, false)
      else RuleStep(held.(lastTriggeredAt := Some(x.time)), true)
  }

  /** The state after the first `n` samples of `h`. */
  function StateAfter(rule: Rule, h: seq<Sample>, n: nat): RuleState
    requires n <= |h|
  {
    if n == 0 then IDLE else StepRule(rule, StateAfter(rule, h, n - 1), h[n - 1]).state
  }

  // ---- What the history says ----

  /** The unbroken run of matching samples that ends at sample `n` begins at `k`. */
  ghost predicate Streak(h: seq<Sample>, k: nat, n: nat)
    requires n < |h|
  {
    k <= n && (forall i :: k <= i <= n ==> h[i].matches) && (k > 0 ==> !h[k - 1].matches)
  }

  /** Sample `n` ends a streak that has lasted at least as long as the rule requires. */
  ghost predicate HeldLongEnough(rule: Rule, h: seq<Sample>, n: nat)
    requires n < |h|
  {
    exists k: nat :: Streak(h, k, n) && h[n].time - h[k].time >= rule.forDuration
  }

  /** The rule fires at sample `n`: its condition has held for long enough, and the
      firing before, if any, is at least the cooldown ago. */
  ghost predicate FiresAt(rule: Rule, h: seq<Sample>, n: nat)
    requires n < |h|
    decreases n, 1
  {
    HeldLongEnough(rule, h, n) && forall j: nat :: LastFiring(rule, h, j, n) ==> h[n].time - h[j].time >= rule.cooldown
  }

  /** Sample `j` is the last before `n` at which the rule fires. */
  ghost predicate LastFiring(rule: Rule, h: seq<Sample>, j: nat, n: nat)
    requires n <= |h|
    decreases n, 0
  {
    j < n && FiresAt(rule, h, j) && forall m :: j < m < n ==> !FiresAt(rule, h, m)
  }

  lemma StreakIsUnique(h: seq<Sample>, k1: nat, k2: nat, n: nat)
    requires n < |h| && Streak(h, k1, n) && Streak(h, k2, n)
    ensures k1 == k2
  {
  }

  lemma LastFiringIsUnique(rule: Rule, h: seq<Sample>, j1: nat, j2: nat, n: nat)
    requires n <= |h| && LastFiring(rule, h, j1, n) && LastFiring(rule, h, j2, n)
    ensures j1 == j2
  {
    hide FiresAt;
  }

  /** `conditionSince` is the time at which the current streak began. */
  ghost predicate SinceIsStreak(h: seq<Sample>, n: nat, since: Option<nat>)
    requires n <= |h|
  {
    if n == 0 || !h[n - 1].matches then since == None
    else since.Some? && exists k: nat :: Streak(h, k, n - 1) && since.value == h[k].time
  }

  /** `lastTriggeredAt` is the time of the last firing. */
  ghost predicate TriggeredIsLastFiring(rule: Rule, h: seq<Sample>, n: nat, triggered: Option<nat>)
    requires n <= |h|
  {
    match triggered
    case None => forall j :: 0 <= j < n ==> !FiresAt(rule, h, j)
    case Some(t) => exists j: nat :: LastFiring(rule, h, j, n) && t == h[j].time
  }

  lemma ExtendStreak(h: seq<Sample>, n: nat, st: RuleState) returns (k: nat)
    requires n < |h| && h[n].matches && SinceIsStreak(h, n, st.conditionSince)
    ensures Streak(h, k, n) && h[k].time == if st.conditionSince.None? then h[n].time else st.conditionSince.value
  {
    if n == 0 || !h[n - 1].matches {
      k := n;
    } else {
      k :| Streak(h, k, n - 1) && st.conditionSince.value == h[k].time;
    }
  }

  lemma StepAgrees(rule: Rule, h: seq<Sample>, n: nat, st: RuleState)
    requires n < |h| && SinceIsStreak(h, n, st.conditionSince)
    requires TriggeredIsLastFiring(rule, h, n, st.lastTriggeredAt)
    ensures StepRule(rule, st, h[n]).fires <==> FiresAt(rule, h, n)
    ensures SinceIsStreak(h, n + 1, StepRule(rule, st, h[n]).state.conditionSince)
  {
    hide Satisfies;
    if h[n].matches {
      var k := ExtendStreak(h, n, st);
      forall k2: nat | Streak(h, k2, n) ensures k2 == k {
        StreakIsUnique(h, k, k2, n);
      }
      assert HeldLongEnough(rule, h, n) <==> h[n].time - h[k].time >= rule.forDuration;
      if st.lastTriggeredAt.Some? {
        var j: nat :| LastFiring(rule, h, j, n) && st.lastTriggeredAt.value == h[j].time;
        forall j2: nat | LastFiring(rule, h, j2, n) ensures j2 == j {
          LastFiringIsUnique(rule, h, j, j2, n);
        }
        assert FiresAt(rule, h, n) <==> HeldLongEnough(rule, h, n) && h[n].time - h[j].time >= rule.cooldown;
      } else {
        assert forall j: nat :: !LastFiring(rule, h, j, n);
        assert FiresAt(rule, h, n) <==> HeldLongEnough(rule, h, n);
      }
    }
  }

  lemma TriggeredStep(rule: Rule, h: seq<Sample>, n: nat, before: Option<nat>, after: Option<nat>)
    requires n < |h| && TriggeredIsLastFiring(rule, h, n, before)
    requires after == if FiresAt(rule, h, n) then Some(h[n].time) else before
    ensures TriggeredIsLastFiring(rule, h, n + 1, after)
  {
    hide FiresAt;
    if FiresAt(rule, h, n) {
      assert LastFiring(rule, h, n, n + 1);
    } else if before.Some? {
      var j: nat :| LastFiring(rule, h, j, n) && before.value == h[j].time;
      assert LastFiring(rule, h, j, n + 1);
    }
  }

  /** The two fields of a rule always agree with the history of its samples. */
  lemma {:induction false} FieldsAgreeWithHistory(rule: Rule, h: seq<Sample>, n: nat)
    requires n <= |h|
    ensures SinceIsStreak(h, n, StateAfter(rule, h, n).conditionSince)
    ensures TriggeredIsLastFiring(rule, h, n, StateAfter(rule, h, n).lastTriggeredAt)
  {
    hide SinceIsStreak, TriggeredIsLastFiring, FiresAt;
    if n == 0 {
      NoSamples(rule, h);
    } else {
      FieldsAgreeWithHistory(rule, h, n - 1);
      var st := StateAfter(rule, h, n - 1);
      StepAgrees(rule, h, n - 1, st);
      TriggeredStep(rule, h, n - 1, st.lastTriggeredAt, StepRule(rule, st, h[n - 1]).state.lastTriggeredAt);
    }
  }

  lemma NoSamples(rule: Rule, h: seq<Sample>)
    ensures SinceIsStreak(h, 0, None) && TriggeredIsLastFiring(rule, h, 0, None)
  {
  }

  /** The program fires a rule at exactly the samples at which its history says so. */
  lemma FiringIsExact(rule: Rule, h: seq<Sample>, n: nat)
    requires n < |h|
    ensures StepRule(rule, StateAfter(rule, h, n), h[n]).fires <==> FiresAt(rule, h, n)
  {
    hide SinceIsStreak, TriggeredIsLastFiring, FiresAt, StepRule, StateAfter;
    FieldsAgreeWithHistory(rule, h, n);
    StepAgrees(rule, h, n, StateAfter(rule, h, n));
  }

  // ---- Under time that does not go back ----

  ghost predicate TimeAdvances(h: seq<Sample>) {
    forall i, j :: 0 <= i < j < |h| ==> h[i].time <= h[j].time
  }

  /** Between two firings lies at least the cooldown. */
  lemma {:induction false} FiringsAreSpaced(rule: Rule, h: seq<Sample>, j: nat, n: nat)
    requires j < n < |h| && TimeAdvances(h) && FiresAt(rule, h, j) && FiresAt(rule, h, n)
    ensures h[n].time - h[j].time >= rule.cooldown
    decreases n - j
  {
    if m :| j < m < n && FiresAt(rule, h, m) {
      FiringsAreSpaced(rule, h, j, m);
    } else {
      assert LastFiring(rule, h, j, n);
    }
  }

  /** So a rule fires exactly when its condition has held long enough and every earlier
      firing is at least the cooldown ago. */
  lemma FiresUnlessRecent(rule: Rule, h: seq<Sample>, n: nat)
    requires n < |h| && TimeAdvances(h)
    ensures FiresAt(rule, h, n) <==>
      HeldLongEnough(rule, h, n)
      && forall j :: 0 <= j < n && FiresAt(rule, h, j) ==> h[n].time - h[j].time >= rule.cooldown
  {
    if FiresAt(rule, h, n) {
      forall j | 0 <= j < n && FiresAt(rule, h, j) ensures h[n].time - h[j].time >= rule.cooldown {
        FiringsAreSpaced(rule, h, j, n);
      }
    }
  }

  // ---- All the rules of one computer ----

  datatype Op = Observe(signal: string, value: real, now: nat) | Reset(name: Option<string>)

  predicate Resets(op: Op, rule: Rule) {
    op.Reset? && (op.name.None? || op.name.value == rule.name)
  }

  predicate Concerns(op: Op, rule: Rule) {
    op.Observe? && op.signal == rule.condition.signal
  }

  function SampleOf(op: Op, rule: Rule): Sample
    requires op.Observe?
  {
    Sample(op.now, Satisfies(rule.condition, op.value))
  }

  /** The samples of a rule's own signal since its timing was last reset. */
  function History(rule: Rule, ops: seq<Op>): seq<Sample> {
    if ops == [] then []
    else
      var before := History(rule, ops[..|ops| - 1]);
      var op := ops[|ops| - 1];
      if Resets(op, rule) then []
      else if Concerns(op, rule) then before + [SampleOf(op, rule)]
      else before
  }

  lemma HistoryStep(rule: Rule, ops: seq<Op>, op: Op)
    ensures var before := History(rule, ops);
      History(rule, ops + [op]) ==
        if Resets(op, rule) then [] else if Concerns(op, rule) then before + [SampleOf(op, rule)] else before
  {
    assert (ops + [op])[..|ops|] == ops;
  }

  /** The timing state of a rule after `ops`: a function of its own history only. */
  function StateOf(rule: Rule, ops: seq<Op>): RuleState {
    StateAfter(rule, History(rule, ops), |History(rule, ops)|)
  }

  /** The operations that a rule takes part in. */
  function OwnOps(rule: Rule, ops: seq<Op>): seq<Op> {
    if ops == [] then []
    else
      var op := ops[|ops| - 1];
      OwnOps(rule, ops[..|ops| - 1]) + if Resets(op, rule) || Concerns(op, rule) then [op] else []
  }

  /** Rules do not affect each other: samples of other signals, and resets of other
      rules, could as well not have happened. */
  lemma {:induction false} RulesAreIndependent(rule: Rule, ops: seq<Op>)
    ensures History(rule, OwnOps(rule, ops)) == History(rule, ops)
    ensures StateOf(rule, OwnOps(rule, ops)) == StateOf(rule, ops)
  {
    hide StateAfter, SampleOf;
    if ops != [] {
      var n := |ops| - 1;
      RulesAreIndependent(rule, ops[..n]);
      var own := OwnOps(rule, ops[..n]);
      assert (own + [ops[n]])[..|own|] == own;
      assert own + [] == own;
    }
  }

  lemma {:induction false} LaterSamplesDoNotMatter(rule: Rule, h: seq<Sample>, x: Sample, n: nat)
    requires n <= |h|
    ensures StateAfter(rule, h + [x], n) == StateAfter(rule, h, n)
  {
    hide StepRule;
    if n > 0 {
      LaterSamplesDoNotMatter(rule, h, x, n - 1);
    }
  }

  /** The last operation is a sample at which `rule` fires. */
  ghost predicate FiresOn(rule: Rule, ops: seq<Op>) {
    && ops != [] && Concerns(ops[|ops| - 1], rule)
    && var h := History(rule, ops); h != [] && FiresAt(rule, h, |h| - 1)
  }

  /** What one operation does to one rule. */
  lemma OpStep(rule: Rule, ops: seq<Op>, op: Op)
    ensures StateOf(rule, ops + [op]) ==
      if Resets(op, rule) then IDLE
      else if Concerns(op, rule) then StepRule(rule, StateOf(rule, ops), SampleOf(op, rule)).state
      else StateOf(rule, ops)
    ensures FiresOn(rule, ops + [op]) <==>
      Concerns(op, rule) && StepRule(rule, StateOf(rule, ops), SampleOf(op, rule)).fires
  {
    hide StepRule, FiresAt, SampleOf, History;
    HistoryStep(rule, ops, op);
    var h := History(rule, ops);
    if Concerns(op, rule) {
      var x := SampleOf(op, rule);
      LaterSamplesDoNotMatter(rule, h, x, |h|);
      FiringIsExact(rule, h + [x], |h|);
    }
  }

  /** What the operators mean for a rule: without delay and cooldown it fires at exactly the
      samples of its signal that are below, at most, above, or at least its threshold. */
  lemma ThresholdsMeanOrder(rule: Rule, ops: seq<Op>, signal: string, value: real, now: nat)
    requires rule.forDuration == 0 && rule.cooldown == 0
    requires forall i :: 0 <= i < |ops| ==> ops[i].Observe? ==> ops[i].now <= now
    ensures var threshold := rule.condition.threshold;
      FiresOn(rule, ops + [Observe(signal, value, now)]) <==>
        signal == rule.condition.signal && match rule.condition.operator
          case LT => value < threshold
          case LTE => value < threshold || value == threshold
          case GT => threshold < value
          case GTE => threshold < value || threshold == value
  {
    hide FiresOn, StateOf;
    var op := Observe(signal, value, now);
    OpStep(rule, ops, op);
    StateIsPast(rule, ops, now);
  }

  /** The times a rule keeps are times of its samples. */
  lemma {:induction false} StateIsPast(rule: Rule, ops: seq<Op>, now: nat)
    requires forall i :: 0 <= i < |ops| ==> ops[i].Observe? ==> ops[i].now <= now
    ensures var st := StateOf(rule, ops);
      && (st.conditionSince.Some? ==> st.conditionSince.value <= now)
      && (st.lastTriggeredAt.Some? ==> st.lastTriggeredAt.value <= now)
  {
    hide Satisfies;
    if ops != [] {
      var n := |ops| - 1;
      StateIsPast(rule, ops[..n], now);
      OpStep(rule, ops[..n], ops[n]);
      assert ops == ops[..n] + [ops[n]];
    }
  }

  /** The rules of `rules` that fire on the last operation, in order. */
  ghost function Firing(rules: seq<Rule>, ops: seq<Op>): seq<Rule> {
    if rules == [] then []
    else Firing(rules[..|rules| - 1], ops) + if FiresOn(rules[|rules| - 1], ops) then [rules[|rules| - 1]] else []
  }

  lemma FiringSnoc(rules: seq<Rule>, rule: Rule, ops: seq<Op>)
    ensures Firing(rules + [rule], ops) == Firing(rules, ops) + if FiresOn(rule, ops) then [rule] else []
  {
    hide FiresOn;
    assert (rules + [rule])[..|rules|] == rules;
  }

  // ---- The module object ----

  datatype RuleResult = RuleResult(ruleName: string, signal: string, value: real, triggeredAt: nat)

  /** One result for each rule that fired, in order. */
  function ResultsOf(fired: seq<Rule>, signal: string, value: real, now: nat): seq<RuleResult> {
    seq(|fired|, i requires 0 <= i < |fired| => RuleResult(fired[i].name, signal, value, now))
  }

  datatype RuleError = DuplicateName | UnknownRule

  ghost predicate UniqueNames(rules: seq<Rule>) {
    forall i, j :: 0 <= i < j < |rules| ==> rules[i].name != rules[j].name
  }

  /** Accepts the rules exactly when their names are unique. */
  method CheckNames(rules: seq<Rule>) returns (r: Result<(), RuleError>)
    ensures r == if UniqueNames(rules) then Ok(()) else Err(DuplicateName)
  {
    var names: set<string> := {};
    for i := 0 to |rules|
      invariant UniqueNames(rules[..i])
      invariant forall name :: name in names <==> exists j :: 0 <= j < i && rules[j].name == name
    {
      if rules[i].name in names {
        return Err(DuplicateName);
      }
      names := names + {rules[i].name};
    }
    assert rules[..|rules|] == rules;
    r := Ok(());
  }

  class ObcPeerModule {
    const rules: seq<Rule>
    var runtimeByRule: map<string, RuleState>
    var lastResults: seq<RuleResult>
    /** Everything observed and reset so far. */
    ghost var ops: seq<Op>

    ghost predicate Valid()
      reads this
    {
      && UniqueNames(rules)
      && (forall name :: name in runtimeByRule <==> exists i :: 0 <= i < |rules| && rules[i].name == name)
      && forall i :: 0 <= i < |rules| ==> runtimeByRule[rules[i].name] == StateOf(rules[i], ops)
    }

    constructor (rules: seq<Rule>)
      requires UniqueNames(rules)
      ensures this.rules == rules && Valid() && ops == [] && lastResults == []
    {
      this.rules := rules;
      lastResults, ops := [], [];
      runtimeByRule := map i | 0 <= i < |rules| :: rules[i].name := IDLE;
    }

    /** Evaluate every rule on one sample; report the rules that fire, in rule order. */
    method ObserveTelemetry(signal: string, value: real, now: nat) returns (results: seq<RuleResult>)
      requires Valid()
      modifies this
      ensures Valid() && ops == old(ops) + [Observe(signal, value, now)]
      ensures results == lastResults == ResultsOf(Firing(rules, ops), signal, value, now)
    {
      hide StateOf, FiresOn, Firing, ResultsOf, StepRule, Satisfies, History;
      ghost var op := Observe(signal, value, now);
      ghost var after := ops + [op];
      results := [];
      NothingFires(after, signal, value, now);
      for i := 0 to |rules|
        invariant ops == old(ops)
        invariant forall name :: name in runtimeByRule <==> name in old(runtimeByRule)
        invariant forall j :: 0 <= j < |rules| ==>
          runtimeByRule[rules[j].name] == StateOf(rules[j], if j < i then after else ops)
        invariant results == ResultsOf(Firing(rules[..i], after), signal, value, now)
      {
        var rule := rules[i];
        assert rules[..i + 1] == rules[..i] + [rule];
        FiringSnoc(rules[..i], rule, after);
        ResultsSnoc(Firing(rules[..i], after), rule, signal, value, now);
        OpStep(rule, ops, op);
        if rule.condition.signal == signal {
          var step := StepRule(rule, runtimeByRule[rule.name], Sample(now, Satisfies(rule.condition, value)));
          runtimeByRule := runtimeByRule[rule.name := step.state];
          if step.fires {
            results := results + [RuleResult(rule.name, signal, value, now)];
          }
        }
      }
      assert rules[..|rules|] == rules;
      ops := after;
      lastResults := results;
    }

    /** Forget the timing of one rule, or of all. */
    method ResetRuleTiming(name: Option<string>) returns (r: Result<(), RuleError>)
      requires Valid()
      modifies this
      ensures Valid() && lastResults == old(lastResults)
      ensures r.Err? <==> name.Some? && forall i :: 0 <= i < |rules| ==> rules[i].name != name.value
      ensures r.Err? ==> r == Err(UnknownRule) && ops == old(ops)
      ensures r.Ok? ==> ops == old(ops) + [Reset(name)]
      ensures r.Ok? ==> forall i :: 0 <= i < |rules| ==>
        History(rules[i], ops) == if name.None? || name.value == rules[i].name then [] else History(rules[i], old(ops))
    {
      hide StateOf, FiresOn, StepRule, History;
      if name.Some? && name.value !in runtimeByRule {
        return Err(UnknownRule);
      }
      forall i | 0 <= i < |rules|
        ensures StateOf(rules[i], ops + [Reset(name)]) ==
          if Resets(Reset(name), rules[i]) then IDLE else StateOf(rules[i], ops)
      {
        OpStep(rules[i], ops, Reset(name));
      }
      forall i | 0 <= i < |rules|
        ensures History(rules[i], ops + [Reset(name)]) ==
          if name.None? || name.value == rules[i].name then [] else History(rules[i], ops)
      {
        HistoryStep(rules[i], ops, Reset(name));
      }
      if name.None? {
        runtimeByRule := map n | n in runtimeByRule :: IDLE;
      } else {
        runtimeByRule := runtimeByRule[name.value := IDLE];
      }
      ops := ops + [Reset(name)];
      r := Ok(());
    }
  }

  lemma NothingFires(ops: seq<Op>, signal: string, value: real, now: nat)
    ensures Firing([], ops) == [] && ResultsOf([], signal, value, now) == []
  {
  }

  lemma ResultsSnoc(fired: seq<Rule>, rule: Rule, signal: string, value: real, now: nat)
    ensures ResultsOf(fired + [rule], signal, value, now)
      == ResultsOf(fired, signal, value, now) + [RuleResult(rule.name, signal, value, now)]
    ensures ResultsOf(fired + [], signal, value, now) == ResultsOf(fired, signal, value, now)
  {
    assert fired + [] == fired;
  }
}
