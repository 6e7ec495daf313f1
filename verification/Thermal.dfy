/** The lumped thermal node: explicit Euler steps toward an equilibrium, over exact reals.
    The configuration check is proved to be exactly what keeps a step from crossing it. */
module Thermal {
  import opened Common

  const ABSOLUTE_ZERO_C: real := -273.15

  datatype ThermalConfig = ThermalConfig(
    initial: real, ambient: real, capacity: real, conductance: real, internalHeat: real,
    heaterPower: real, heaterInitiallyOn: bool, tickSeconds: real, degradedFactor: real)
  {
    /** The ranges of the single fields. */
    predicate InRange() {
      && initial >= ABSOLUTE_ZERO_C && ambient >= ABSOLUTE_ZERO_C
      && capacity > 0.0 && conductance >= 0.0 && internalHeat >= 0.0 && heaterPower >= 0.0
      && tickSeconds > 0.0 && 0.0 < degradedFactor <= 1.0
    }

    /** A tick is no longer than the time constant, which is infinite if uncoupled. */
    predicate Stable()
      requires InRange()
    {
      conductance == 0.0 || tickSeconds <= capacity / conductance
    }

    predicate Valid() {
      InRange() && Stable()
    }
  }

  datatype Faults = Faults(heaterStuckOff: bool, heaterStuckOn: bool, radiatorDegraded: bool)

  const NO_FAULTS := Faults(false, false, false)

  /** A stuck heater ignores commands; stuck on wins over stuck off. */
  function HeaterEnabled(commandedOn: bool, f: Faults): bool {
    if f.heaterStuckOn then true else if f.heaterStuckOff then false else commandedOn
  }

  function Heat(c: ThermalConfig, on: bool, f: Faults): real {
    c.internalHeat + if HeaterEnabled(on, f) then c.heaterPower else 0.0
  }

  function Conductance(c: ThermalConfig, f: Faults): real {
    if f.radiatorDegraded then c.conductance * c.degradedFactor else c.conductance
  }

  function HeatLoss(c: ThermalConfig, f: Faults, t: real): real {
    Conductance(c, f) * (t - c.ambient)
  }

  /** Gain less loss. */
  function NetPower(c: ThermalConfig, on: bool, f: Faults, t: real): real {
    Heat(c, on, f) - HeatLoss(c, f, t)
  }

  /** The temperature change of one tick under a net power. */
  function Delta(c: ThermalConfig, netPower: real): real
    requires c.InRange()
  {
    netPower * c.tickSeconds / c.capacity
  }

  /** One Euler step, before the clamp. */
  function Euler(c: ThermalConfig, on: bool, f: Faults, t: real): real
    requires c.InRange()
  {
    t + Delta(c, NetPower(c, on, f, t))
  }

  function Tick(c: ThermalConfig, on: bool, f: Faults, t: real): real
    requires c.InRange()
  {
    if Euler(c, on, f, t) < ABSOLUTE_ZERO_C then ABSOLUTE_ZERO_C else Euler(c, on, f, t)
  }

  function TickN(c: ThermalConfig, on: bool, f: Faults, t: real, n: nat): real
    requires c.InRange()
  {
    if n == 0 then t else Tick(c, on, f, TickN(c, on, f, t, n - 1))
  }

  // ---- One step ----

  /** The temperature at which gain and loss balance. */
  function Equilibrium(c: ThermalConfig, on: bool, f: Faults): real
    requires c.InRange() && c.conductance > 0.0
  {
    PositiveConductance(c, f);
    c.ambient + Heat(c, on, f) / Conductance(c, f)
  }

  /** The part of the error that one step removes. */
  function Ratio(c: ThermalConfig, f: Faults): real
    requires c.InRange()
  {
    Conductance(c, f) * c.tickSeconds / c.capacity
  }

  lemma PositiveConductance(c: ThermalConfig, f: Faults)
    requires c.InRange()
    ensures 0.0 <= Conductance(c, f) <= c.conductance
    ensures c.conductance > 0.0 ==> Conductance(c, f) > 0.0
  {
  }

  lemma MulMonotone(a: real, b: real, x: real)
    requires a <= b && x >= 0.0
    ensures a * x <= b * x
  {
  }

  lemma DivMonotone(a: real, b: real, x: real)
    requires x > 0.0
    ensures a <= b <==> a / x <= b / x
  {
  }

  lemma DivMul(a: real, x: real)
    requires x > 0.0
    ensures a / x * x == a && a * x / x == a
  {
  }

  /** The stability check says that the nominal ratio is at most one. */
  lemma StableIsRatio(c: ThermalConfig)
    requires c.InRange()
    ensures c.Stable() <==> Ratio(c, NO_FAULTS) <= 1.0
  {
    var k, dt, cap := c.conductance, c.tickSeconds, c.capacity;
    if k > 0.0 {
      assert dt <= cap / k <==> dt * k <= cap by {
        DivMul(cap, k);
        DivMul(dt, k);
        DivMonotone(dt * k, cap, k);
      }
      DivMonotone(k * dt, cap, cap);
    }
  }

  lemma RatioInRange(c: ThermalConfig, f: Faults)
    requires c.Valid()
    ensures 0.0 <= Ratio(c, f) <= 1.0
    ensures c.conductance > 0.0 ==> Ratio(c, f) > 0.0
  {
    StableIsRatio(c);
    PositiveConductance(c, f);
    MulMonotone(Conductance(c, f), c.conductance, c.tickSeconds);
    DivMonotone(Conductance(c, f) * c.tickSeconds, c.conductance * c.tickSeconds, c.capacity);
  }

  /** Each step multiplies the error by the same factor. */
  lemma EulerScalesError(c: ThermalConfig, on: bool, f: Faults, t: real)
    requires c.InRange() && c.conductance > 0.0
    ensures Euler(c, on, f, t) - Equilibrium(c, on, f) == (1.0 - Ratio(c, f)) * (t - Equilibrium(c, on, f))
  {
    hide Heat, Conductance;
    PositiveConductance(c, f);
    var k, q, e := Conductance(c, f), Heat(c, on, f), Equilibrium(c, on, f);
    DivMul(q, k);
    Distribute(k, e - c.ambient, t - c.ambient);
    FlowOverCapacity(k, e - t, c.tickSeconds, c.capacity);
    Distribute(1.0, t - e, Ratio(c, f) * (t - e));
  }

  lemma Distribute(k: real, a: real, b: real)
    ensures k * a - k * b == k * (a - b)
  {
  }

  lemma FlowOverCapacity(k: real, d: real, dt: real, x: real)
    requires x > 0.0
    ensures k * d * dt / x == -(k * dt / x * -d)
  {
  }

  /** A step moves toward the equilibrium, and does not cross it. */
  ghost predicate MovesToward(t: real, next: real, e: real) {
    (t < e ==> t < next <= e) && (e < t ==> e <= next < t) && (t == e ==> next == e)
  }

  lemma ScaleToward(d: real, r: real, next: real)
    requires 0.0 < r <= 1.0 && next == (1.0 - r) * d
    ensures d > 0.0 ==> 0.0 <= next < d
    ensures d < 0.0 ==> d < next <= 0.0
    ensures d == 0.0 ==> next == 0.0
  {
    Distribute(1.0, d, r * d);
    assert next == d - r * d;
    if d > 0.0 {
      PositiveProduct(r, d);
      MulMonotone(r, 1.0, d);
    } else if d < 0.0 {
      PositiveProduct(r, -d);
      MulMonotone(r, 1.0, -d);
    }
  }

  lemma HeatIsNonnegative(c: ThermalConfig, on: bool, f: Faults)
    requires c.InRange() && c.conductance > 0.0
    ensures c.ambient <= Equilibrium(c, on, f)
  {
    PositiveConductance(c, f);
    DivMonotone(0.0, Heat(c, on, f), Conductance(c, f));
  }

  /** The check of the configuration is exact: it accepts a coupled node if and only if
      no step before the clamp, from any temperature, under any command and faults,
      crosses the equilibrium. */
  lemma StabilityIsExact(c: ThermalConfig)
    requires c.InRange() && c.conductance > 0.0
    ensures c.Stable() <==> forall on, f, t :: MovesToward(t, Euler(c, on, f, t), Equilibrium(c, on, f))
  {
    hide Euler, Equilibrium, Ratio;
    if c.Stable() {
      forall on, f, t ensures MovesToward(t, Euler(c, on, f, t), Equilibrium(c, on, f)) {
        EulerMovesToward(c, on, f, t);
      }
    } else {
      var e := Equilibrium(c, true, NO_FAULTS);
      StableIsRatio(c);
      EulerScalesError(c, true, NO_FAULTS, e + 1.0);
      assert !MovesToward(e + 1.0, Euler(c, true, NO_FAULTS, e + 1.0), e);
    }
  }

  /** Where a node tends to: the excess over ambient, times the conductance, is the heat.
      Stuck off, only the internal heat warms it, whatever was commanded; stuck on, the
      heater does too, and that wins; otherwise the command decides. */
  lemma EquilibriumUnderFaults(c: ThermalConfig, on: bool, f: Faults)
    requires c.InRange() && c.conductance > 0.0
    ensures var heated := f.heaterStuckOn || (on && !f.heaterStuckOff);
      var excess := Equilibrium(c, on, f) - c.ambient;
      excess * Conductance(c, f) == c.internalHeat + if heated then c.heaterPower else 0.0
  {
    hide Conductance;
    PositiveConductance(c, f);
    DivMul(Heat(c, on, f), Conductance(c, f));
    QuotientOf(Heat(c, on, f), Conductance(c, f), Equilibrium(c, on, f) - c.ambient);
  }

  lemma QuotientOf(a: real, x: real, e: real)
    requires x > 0.0 && e == a / x
    ensures e * x == a
  {
    DivMul(a, x);
  }

  /** A degraded radiator divides the excess over ambient by its factor. */
  lemma DegradedRadiator(c: ThermalConfig, on: bool, f: Faults)
    requires c.InRange() && c.conductance > 0.0
    ensures Equilibrium(c, on, f.(radiatorDegraded := true)) - c.ambient
      == (Equilibrium(c, on, f.(radiatorDegraded := false)) - c.ambient) / c.degradedFactor
    ensures Conductance(c, f.(radiatorDegraded := false)) == c.conductance
  {
    hide HeaterEnabled;
    PositiveConductance(c, f.(radiatorDegraded := true));
    PositiveProduct(c.conductance, c.degradedFactor);
    DivTwice(Heat(c, on, f), c.conductance, c.degradedFactor);
    SameHeat(c, on, f);
  }

  lemma SameHeat(c: ThermalConfig, on: bool, f: Faults)
    ensures Heat(c, on, f.(radiatorDegraded := true)) == Heat(c, on, f) == Heat(c, on, f.(radiatorDegraded := false))
  {
  }

  lemma DivTwice(a: real, x: real, y: real)
    requires x > 0.0 && y > 0.0 && x * y > 0.0
    ensures a / (x * y) == a / x / y
  {
    DivMul(a, x);
    DivMul(a / x, y);
    assert a / x / y * (x * y) == a;
    DivMul(a / x / y, x * y);
  }

  lemma EulerMovesToward(c: ThermalConfig, on: bool, f: Faults, t: real)
    requires c.Valid() && c.conductance > 0.0
    ensures MovesToward(t, Euler(c, on, f, t), Equilibrium(c, on, f))
  {
    hide Euler, Equilibrium, Ratio;
    EulerScalesError(c, on, f, t);
    RatioInRange(c, f);
    ScaleToward(t - Equilibrium(c, on, f), Ratio(c, f), Euler(c, on, f, t) - Equilibrium(c, on, f));
  }

  lemma UncoupledWarms(c: ThermalConfig, on: bool, f: Faults, t: real)
    requires c.InRange() && c.conductance == 0.0
    ensures Euler(c, on, f, t) >= t
  {
    var q, dt := Heat(c, on, f), c.tickSeconds;
    assert Conductance(c, f) * (t - c.ambient) == 0.0;
    MulMonotone(0.0, q, dt);
    DivMonotone(0.0, q * dt, c.capacity);
  }

  /** The clamp never fires: no step leads below absolute zero. */
  lemma ClampNeverFires(c: ThermalConfig, on: bool, f: Faults, t: real)
    requires c.Valid() && t >= -273.15
    ensures Euler(c, on, f, t) >= -273.15 && Tick(c, on, f, t) == Euler(c, on, f, t)
  {
    hide Euler, Equilibrium;
    if c.conductance > 0.0 {
      EulerMovesToward(c, on, f, t);
      HeatIsNonnegative(c, on, f);
    } else {
      UncoupledWarms(c, on, f, t);
    }
  }

  /** A node that nothing heats, in surroundings at absolute zero. */
  predicate Frozen(c: ThermalConfig) {
    c.ambient == ABSOLUTE_ZERO_C && c.internalHeat == 0.0 && c.heaterPower == 0.0
  }

  lemma FrozenTicks(c: ThermalConfig, on: bool, f: Faults, t: real)
    requires c.InRange() && c.conductance > 0.0 && Frozen(c) && t >= ABSOLUTE_ZERO_C
    ensures Equilibrium(c, on, f) == ABSOLUTE_ZERO_C && MovesToward(t, Tick(c, on, f, t), ABSOLUTE_ZERO_C)
  {
    hide Euler;
    PositiveConductance(c, f);
    EulerScalesError(c, on, f, t);
    PositiveRatio(c, f);
    var r, d := Ratio(c, f), t - ABSOLUTE_ZERO_C;
    Distribute(1.0, d, r * d);
    MulMonotone(0.0, d, r);
    if d > 0.0 {
      PositiveProduct(r, d);
    }
  }

  lemma PositiveProduct(a: real, b: real)
    requires a > 0.0 && b > 0.0
    ensures a * b > 0.0
  {
  }

  lemma PositiveRatio(c: ThermalConfig, f: Faults)
    requires c.InRange() && c.conductance > 0.0
    ensures Ratio(c, f) > 0.0
  {
    PositiveConductance(c, f);
    PositiveProduct(Conductance(c, f), c.tickSeconds);
    DivMonotone(Conductance(c, f) * c.tickSeconds, 0.0, c.capacity);
  }

  /** For whole ticks, clamp included, from any temperature that can occur, there is one
      exception: a node frozen at absolute zero, which no tick can cross, whatever the
      length of a tick. */
  lemma TickStabilityIsExact(c: ThermalConfig)
    requires c.InRange() && c.conductance > 0.0
    ensures c.Stable() || Frozen(c) <==>
      forall on, f, t :: t >= ABSOLUTE_ZERO_C ==> MovesToward(t, Tick(c, on, f, t), Equilibrium(c, on, f))
  {
    hide Euler, Equilibrium, Ratio, Tick;
    if c.Stable() {
      forall on, f, t | t >= ABSOLUTE_ZERO_C ensures MovesToward(t, Tick(c, on, f, t), Equilibrium(c, on, f)) {
        ClampNeverFires(c, on, f, t);
        EulerMovesToward(c, on, f, t);
      }
    } else if Frozen(c) {
      forall on, f, t | t >= ABSOLUTE_ZERO_C ensures MovesToward(t, Tick(c, on, f, t), Equilibrium(c, on, f)) {
        FrozenTicks(c, on, f, t);
      }
    } else {
      UnstableTickCrosses(c);
    }
  }

  lemma UnstableTickCrosses(c: ThermalConfig)
    requires c.InRange() && c.conductance > 0.0 && !c.Stable() && !Frozen(c)
    ensures var e := Equilibrium(c, true, NO_FAULTS);
      e + 1.0 >= ABSOLUTE_ZERO_C && Tick(c, true, NO_FAULTS, e + 1.0) < e
  {
    hide Euler, Ratio;
    var e := Equilibrium(c, true, NO_FAULTS);
    HeatIsNonnegative(c, true, NO_FAULTS);
    if Heat(c, true, NO_FAULTS) > 0.0 {
      DivMonotone(Heat(c, true, NO_FAULTS), 0.0, Conductance(c, NO_FAULTS));
    }
    StableIsRatio(c);
    EulerScalesError(c, true, NO_FAULTS, e + 1.0);
  }

  // ---- Many steps under fixed inputs ----

  function Pow(x: real, n: nat): real {
    if n == 0 then 1.0 else x * Pow(x, n - 1)
  }

  /** After `n` ticks the error is the first one times the `n`th power of one factor. */
  lemma {:induction false} ErrorAfterTicks(c: ThermalConfig, on: bool, f: Faults, t: real, n: nat)
    requires c.Valid() && c.conductance > 0.0 && t >= ABSOLUTE_ZERO_C
    ensures TickN(c, on, f, t, n) >= ABSOLUTE_ZERO_C
    ensures var e := Equilibrium(c, on, f);
      TickN(c, on, f, t, n) - e == Pow(1.0 - Ratio(c, f), n) * (t - e)
  {
    hide Tick, Euler, Equilibrium, Ratio;
    if n > 0 {
      ErrorAfterTicks(c, on, f, t, n - 1);
      var u := TickN(c, on, f, t, n - 1);
      ClampNeverFires(c, on, f, u);
      EulerScalesError(c, on, f, u);
      Associate(1.0 - Ratio(c, f), Pow(1.0 - Ratio(c, f), n - 1), t - Equilibrium(c, on, f));
    }
  }

  lemma Associate(a: real, b: real, x: real)
    ensures a * (b * x) == (a * b) * x
  {
  }

  // ---- Whole schedules ----

  datatype Op = Command(heaterOn: bool) | Advance(ticks: nat, faults: Faults)

  datatype ThermalState = ThermalState(temperature: real, heaterCommandedOn: bool)

  function Apply(c: ThermalConfig, s: ThermalState, op: Op): ThermalState
    requires c.InRange()
  {
    match op
    case Command(on) => s.(heaterCommandedOn := on)
    case Advance(n, f) => s.(temperature := TickN(c, s.heaterCommandedOn, f, s.temperature, n))
  }

  function Run(c: ThermalConfig, ops: seq<Op>): ThermalState
    requires c.InRange()
  {
    if ops == [] then ThermalState(c.initial, c.heaterInitiallyOn)
    else Apply(c, Run(c, ops[..|ops| - 1]), ops[|ops| - 1])
  }

  function Min(a: real, b: real): real { if a < b then a else b }

  function Max(a: real, b: real): real { if a < b then b else a }

  /** The equilibrium with the heater on and the radiator degraded. */
  function HottestEquilibrium(c: ThermalConfig): real
    requires c.InRange() && c.conductance > 0.0
  {
    Equilibrium(c, true, Faults(false, true, true))
  }

  lemma HottestIsHottest(c: ThermalConfig, on: bool, f: Faults)
    requires c.InRange() && c.conductance > 0.0
    ensures c.ambient <= Equilibrium(c, on, f) <= HottestEquilibrium(c)
  {
    var worst := Faults(false, true, true);
    HeatIsNonnegative(c, on, f);
    PositiveConductance(c, f);
    PositiveConductance(c, worst);
    assert Conductance(c, worst) <= Conductance(c, f);
    Quotients(Heat(c, on, f), Heat(c, true, worst), Conductance(c, f), Conductance(c, worst));
  }

  lemma Quotients(a: real, b: real, x: real, y: real)
    requires 0.0 <= a <= b && 0.0 < y <= x
    ensures a / x <= b / y
  {
    DivMonotone(a, b, x);
    assert b / x <= b / y by {
      DivMul(b, x);
      MulMonotone(y, x, b / x);
      DivMul(b / x, y);
      DivMonotone(b / x * y, b, y);
    }
  }

  /** Within bounds that no command and no named fault can leave. */
  ghost predicate Bounded(c: ThermalConfig, t: real)
    requires c.InRange()
  {
    && Min(c.initial, c.ambient) <= t
    && (c.conductance > 0.0 ==> t <= Max(c.initial, HottestEquilibrium(c)))
  }

  lemma {:induction false} TicksStayBounded(c: ThermalConfig, on: bool, f: Faults, t: real, n: nat)
    requires c.Valid() && Bounded(c, t)
    ensures Bounded(c, TickN(c, on, f, t, n))
  {
    hide Tick, Euler, Equilibrium;
    if n > 0 {
      TicksStayBounded(c, on, f, t, n - 1);
      var u := TickN(c, on, f, t, n - 1);
      ClampNeverFires(c, on, f, u);
      if c.conductance > 0.0 {
        HottestIsHottest(c, on, f);
        EulerMovesToward(c, on, f, u);
      } else {
        UncoupledWarms(c, on, f, u);
      }
    }
  }

  /** For every schedule of commands, named faults and ticks, the temperature stays
      between the colder of start and ambient and the hotter of start and the hottest
      equilibrium. */
  lemma {:induction false} TemperatureStaysBounded(c: ThermalConfig, ops: seq<Op>)
    requires c.Valid()
    ensures Bounded(c, Run(c, ops).temperature) && Run(c, ops).temperature >= -273.15
  {
    hide TickN, HottestEquilibrium;
    if ops != [] {
      var n := |ops| - 1;
      TemperatureStaysBounded(c, ops[..n]);
      var s := Run(c, ops[..n]);
      if ops[n].Advance? {
        TicksStayBounded(c, s.heaterCommandedOn, ops[n].faults, s.temperature, ops[n].ticks);
      }
    }
  }

  // ---- The module object ----

  class ThermalRcModule {
    const config: ThermalConfig
    var temperatureC: real
    var heaterCommandedOn: bool
    /** Everything this module was told so far. */
    ghost var ops: seq<Op>

    ghost predicate Valid()
      reads this
    {
      config.Valid() && Run(config, ops) == ThermalState(temperatureC, heaterCommandedOn)
    }

    constructor (config: ThermalConfig)
      requires config.Valid()
      ensures Valid() && this.config == config && ops == []
    {
      this.config := config;
      temperatureC, heaterCommandedOn, ops := config.initial, config.heaterInitiallyOn, [];
    }

    /** Record what was commanded, whatever the heater then does. */
    method SetHeaterEnabled(enabled: bool)
      requires Valid()
      modifies this
      ensures Valid() && ops == old(ops) + [Command(enabled)]
    {
      ghost var before := ops;
      heaterCommandedOn := enabled;
      ops := ops + [Command(enabled)];
      assert ops[..|before|] == before;
    }

    method Step(faults: Faults)
      requires config.InRange()
      modifies this`temperatureC
      ensures temperatureC == Tick(config, heaterCommandedOn, faults, old(temperatureC))
    {
      hide HeaterEnabled, HeatLoss, Delta;
      var power := if HeaterEnabled(heaterCommandedOn, faults) then config.heaterPower else 0.0;
      var netPower := config.internalHeat + power - HeatLoss(config, faults, temperatureC);
      assert netPower == NetPower(config, heaterCommandedOn, faults, temperatureC);
      var delta := Delta(config, netPower);
      temperatureC := if temperatureC + delta < ABSOLUTE_ZERO_C then ABSOLUTE_ZERO_C else temperatureC + delta;
    }

    /** Integrate forward by `ticks` ticks under the named faults active now. */
    method Advance(ticks: nat, faults: Faults)
      requires Valid()
      modifies this
      ensures Valid() && ops == old(ops) + [Op.Advance(ticks, faults)]
      ensures Bounded(config, temperatureC) && temperatureC >= -273.15
      ensures config.conductance > 0.0 ==>
        var e := Equilibrium(config, heaterCommandedOn, faults);
        temperatureC - e == Pow(1.0 - Ratio(config, faults), ticks) * (old(temperatureC) - e)
    {
      hide Tick, Equilibrium, Pow, Bounded, Ratio;
      ghost var before := ops;
      TemperatureStaysBounded(config, before);
      for i := 0 to ticks
        invariant ops == before && heaterCommandedOn == old(heaterCommandedOn)
        invariant temperatureC == TickN(config, heaterCommandedOn, faults, old(temperatureC), i)
      {
        Step(faults);
      }
      ops := before + [Op.Advance(ticks, faults)];
      assert ops[..|before|] == before;
      TemperatureStaysBounded(config, ops);
      if config.conductance > 0.0 {
        ErrorAfterTicks(config, heaterCommandedOn, faults, old(temperatureC), ticks);
      }
    }
  }
}
