/**
 The fan daemon's pass over its zones: each zone's speed, the override for dead
 fans, and the ramp that limits how far one pass moves the output.
 */
module FanDaemon {
  import opened FscExpr
  import opened FscEval
  import opened FanZone
  import opened Wrappers

  datatype DeadRate = DeadRate(upTo: nat, rate: real)

  datatype DeadBoost = DeadBoost(data: seq<DeadRate>, threshold: int, action: bool)

  datatype FanConfig = FanConfig(boost: real, rampRate: real, fanFail: bool, progressive: bool,
                                 deadBoost: Option<DeadBoost>, fans: nat)

  // ----- One zone in one pass -----

  /** Per dead fan a rate by the first entry that covers their number, else the boost speed. */
  function Progressive(data: seq<DeadRate>, boost: real, pwm: real, dead: nat): real {
    if data == [] then boost
    else if dead <= data[0].upTo then Clamp(pwm + dead as real * data[0].rate)
    else Progressive(data[1..], boost, pwm, dead)
  }

  predicate IsProgressive(f: FanConfig) {
    f.progressive && f.deadBoost.Some?
  }

  function Override(f: FanConfig, pwm: real, dead: nat): real {
    if !f.fanFail || dead == 0 then pwm
    else if IsProgressive(f) then Progressive(f.deadBoost.value.data, f.boost, pwm, dead)
    else f.boost
  }

  predicate CountsDeadFans(f: FanConfig) {
    f.fanFail && !IsProgressive(f) && f.deadBoost.Some?
  }

  /** The counter of passes in which every fan was dead. */
  function CounterAfter(f: FanConfig, dead: nat, counter: int): int {
    if !CountsDeadFans(f) then counter else if dead == f.fans then counter + 1 else 0
  }

  predicate AsksHost(f: FanConfig, dead: nat, counter: int) {
    CountsDeadFans(f) && dead == f.fans && f.deadBoost.value.threshold != 0 && f.deadBoost.value.action &&
    counter + 1 >= f.deadBoost.value.threshold
  }

  function Distance(x: real, y: real): real {
    if x < y then y - x else x - y
  }

  function Ramp(rate: real, last: real, target: real): real {
    if Distance(last, target) > rate then if target < last then last - rate else last + rate else target
  }

  /** What the zone should reach: its own result, or the boost speed while the tray
      is out, then the override. */
  function Target(f: FanConfig, c: Config, vars: seq<Variable>, s: ZoneState, input: Input, dead: nat, trayOut: bool):
    Result
    requires |vars| == |s.slots|
  {
    var res := if trayOut then Pwm(f.boost) else RunZone(c, vars, s, input).0;
    if res.Raised? then Raised else Pwm(Override(f, res.pwm, dead))
  }

  function Pass(f: FanConfig, c: Config, vars: seq<Variable>, s: ZoneState, input: Input, dead: nat, trayOut: bool):
    (after: ZoneState)
    requires |vars| == |s.slots|
    ensures |after.slots| == |vars|
  {
    var s1 := if trayOut then s else RunZone(c, vars, s, input).1;
    var target := Target(f, c, vars, s, input, dead, trayOut);
    if target.Raised? then s1 else s1.(lastPwm := Ramp(f.rampRate, s.lastPwm, target.pwm))
  }

  class Daemon {
    const f: FanConfig
    const zones: seq<Zone>
    var allFanFailCounter: int

    constructor (f: FanConfig, zones: seq<Zone>)
      ensures this.f == f && this.zones == zones && allFanFailCounter == 0
    {
      this.f, this.zones, allFanFailCounter := f, zones, 0;
    }

    predicate Valid()
      reads zones
    {
      Distinct() && forall i :: 0 <= i < |zones| ==> zones[i].Valid()
    }

    predicate Distinct() {
      forall i, j :: 0 <= i < j < |zones| ==> zones[i] != zones[j]
    }

    /** The zone has passed, or has raised, from state `s`. */
    predicate Done(z: Zone, s: ZoneState, input: Input, dead: nat, trayOut: bool, raised: bool)
      reads z
    {
      && |z.vars| == |s.slots| && z.Valid() && z.State() == Pass(f, z.c, z.vars, s, input, dead, trayOut)
      && Target(f, z.c, z.vars, s, input, dead, trayOut).Raised? == raised
    }

    /** All zones in order, from the states `before`; an exception ends the pass in the
        zone that raised.  Returns how many passed; what each sets its fans to is its
        lastPwm. */
    method UpdateZones(input: Input, dead: nat, trayOut: seq<bool>, ghost before: seq<ZoneState>) returns (passed: nat)
      requires Valid() && |trayOut| == |before| == |zones|
      requires forall i :: 0 <= i < |zones| ==> zones[i].State() == before[i]
      modifies this`allFanFailCounter, zones
      ensures Valid() && passed <= |zones|
      ensures forall i :: 0 <= i < passed ==> Done(zones[i], before[i], input, dead, trayOut[i], false)
      ensures passed < |zones| ==> Done(zones[passed], before[passed], input, dead, trayOut[passed], true)
      ensures forall i :: passed < i < |zones| ==> zones[i].State() == before[i]
      ensures allFanFailCounter == CounterRun(f, dead, passed, old(allFanFailCounter))
    {
      passed := 0;
      while passed < |zones|
        invariant 0 <= passed <= |zones|
        invariant forall i :: passed <= i < |zones| ==> zones[i].Valid() && zones[i].State() == before[i]
        invariant forall i :: 0 <= i < passed ==> Done(zones[i], before[i], input, dead, trayOut[i], false)
        invariant allFanFailCounter == CounterRun(f, dead, passed, old(allFanFailCounter))
      {
        var z := zones[passed];
        assert forall i :: 0 <= i < |zones| && i != passed ==> zones[i] != z;
        var raised, _ := UpdateZone(z, input, dead, trayOut[passed]);
        if raised {
          break;
        }
        passed := passed + 1;
      }
    }

    method UpdateZone(zone: Zone, input: Input, dead: nat, trayOut: bool) returns (raised: bool, askHost: bool)
      requires zone.Valid()
      modifies this`allFanFailCounter, zone
      ensures zone.Valid()
      ensures Done(zone, old(zone.State()), input, dead, trayOut, raised)
      ensures allFanFailCounter ==
              if raised then old(allFanFailCounter) else CounterAfter(f, dead, old(allFanFailCounter))
      ensures askHost == (!raised && AsksHost(f, dead, old(allFanFailCounter)))
    {
      var pwmval := f.boost;
      if !trayOut {
        var res := zone.Run(input);
        if res.Raised? {
          return true, false;
        }
        pwmval := res.pwm;
      }
      pwmval, askHost := HandleDeadFans(pwmval, dead);
      if Distance(zone.lastPwm, pwmval) > f.rampRate {
        if pwmval < zone.lastPwm {
          pwmval := zone.lastPwm - f.rampRate;
        } else {
          pwmval := zone.lastPwm + f.rampRate;
        }
      }
      zone.lastPwm := pwmval;
      raised := false;
    }

    method HandleDeadFans(pwm: real, dead: nat) returns (pwmval: real, askHost: bool)
      modifies this`allFanFailCounter
      ensures pwmval == Override(f, pwm, dead) && askHost == AsksHost(f, dead, old(allFanFailCounter))
      ensures allFanFailCounter == CounterAfter(f, dead, old(allFanFailCounter))
    {
      pwmval, askHost := pwm, false;
      if !f.fanFail {
        return;
      }
      if f.progressive && f.deadBoost.Some? {
        if dead > 0 {
          var data := f.deadBoost.value.data;
          for k := 0 to |data|
            invariant Override(f, pwm, dead) == Progressive(data[k..], f.boost, pwm, dead)
          {
            if dead <= data[k].upTo {
              return Clamp(pwm + dead as real * data[k].rate), false;
            }
          }
          pwmval := f.boost;
        }
      } else {
        if dead > 0 {
          pwmval := f.boost;
        }
        if f.deadBoost.Some? {
          if dead == f.fans {
            allFanFailCounter := allFanFailCounter + 1;
            var threshold := f.deadBoost.value.threshold;
            if threshold != 0 && f.deadBoost.value.action {
              askHost := allFanFailCounter >= threshold;
            }
          } else {
            allFanFailCounter := 0;
          }
        }
      }
    }
  }

  // ----- What dead fans and the ramp come to -----

  /** The first entry that covers the number of dead fans. */
  predicate Covers(data: seq<DeadRate>, k: nat, dead: nat) {
    k < |data| && dead <= data[k].upTo && forall j :: 0 <= j < k ==> dead > data[j].upTo
  }

  lemma {:induction false} ProgressiveIs(data: seq<DeadRate>, boost: real, pwm: real, dead: nat, k: nat)
    requires Covers(data, k, dead)
    ensures Progressive(data, boost, pwm, dead) == Clamp(pwm + dead as real * data[k].rate)
  {
    if k > 0 {
      assert dead > data[0].upTo;
      assert forall j :: 0 <= j < k - 1 ==> data[1..][j] == data[j + 1];
      ProgressiveIs(data[1..], boost, pwm, dead, k - 1);
    }
  }

  lemma {:induction false} NoneCovers(data: seq<DeadRate>, boost: real, pwm: real, dead: nat)
    requires forall d :: d in data ==> dead > d.upTo
    ensures Progressive(data, boost, pwm, dead) == boost
  {
    if data != [] {
      assert data[0] in data && forall d :: d in data[1..] ==> d in data;
      NoneCovers(data[1..], boost, pwm, dead);
    }
  }

  ghost predicate NoneCover(f: FanConfig, dead: nat) {
    f.deadBoost.Some? && forall d :: d in f.deadBoost.value.data ==> dead > d.upTo
  }

  /** Dead fans put the boost speed in place of the zone's result, unless the setting is
      progressive and some entry covers their number. */
  lemma DeadFansBoost(f: FanConfig, pwm: real, dead: nat)
    ensures !f.fanFail || dead == 0 ==> Override(f, pwm, dead) == pwm
    ensures f.fanFail && dead > 0 && (!f.progressive || f.deadBoost.None?) ==> Override(f, pwm, dead) == f.boost
    ensures f.fanFail && dead > 0 && NoneCover(f, dead) ==> Override(f, pwm, dead) == f.boost
  {
    if NoneCover(f, dead) {
      NoneCovers(f.deadBoost.value.data, f.boost, pwm, dead);
    }
  }

  /** Then each dead fan adds the rate of the first such entry, within 0 to 100. */
  lemma DeadFansAdd(f: FanConfig, pwm: real, dead: nat, k: nat) returns (raised: real)
    requires f.fanFail && dead > 0 && f.progressive && f.deadBoost.Some? && Covers(f.deadBoost.value.data, k, dead)
    ensures raised == pwm + dead as real * f.deadBoost.value.data[k].rate
    ensures Override(f, pwm, dead) == if raised < 0.0 then 0.0 else if raised > 100.0 then 100.0 else raised
  {
    raised := pwm + dead as real * f.deadBoost.value.data[k].rate;
    ProgressiveIs(f.deadBoost.value.data, f.boost, pwm, dead, k);
  }

  /** The ramp takes a target within reach, and otherwise goes the whole rate its way. */
  lemma RampIs(rate: real, last: real, target: real)
    requires rate >= 0.0
    ensures last - rate <= target <= last + rate ==> Ramp(rate, last, target) == target
    ensures target > last + rate ==> Ramp(rate, last, target) == last + rate
    ensures target < last - rate ==> Ramp(rate, last, target) == last - rate
  {
  }

  /** One pass: with the tray out the zone is not run and remembers what it did; where
      the zone raises the speed stays; otherwise it goes towards the zone's result,
      overridden. */
  lemma PassIs(f: FanConfig, c: Config, vars: seq<Variable>, s: ZoneState, input: Input, dead: nat)
    requires |vars| == |s.slots|
    ensures Pass(f, c, vars, s, input, dead, true) ==
            s.(lastPwm := Ramp(f.rampRate, s.lastPwm, Override(f, f.boost, dead)))
    ensures var (res, left) := RunZone(c, vars, s, input);
            Pass(f, c, vars, s, input, dead, false) ==
            if res.Raised? then left
            else left.(lastPwm := Ramp(f.rampRate, s.lastPwm, Override(f, res.pwm, dead)))
  {
  }

  // ----- The counter -----

  /** The counter after one cycle's pass over `zones` zones. */
  function CounterRun(f: FanConfig, dead: nat, zones: nat, counter: int): int {
    if zones == 0 then counter else CounterAfter(f, dead, CounterRun(f, dead, zones - 1, counter))
  }

  function CounterCycles(f: FanConfig, deads: seq<nat>, zones: nat): int {
    if deads == [] then 0
    else CounterRun(f, deads[|deads| - 1], zones, CounterCycles(f, deads[..|deads| - 1], zones))
  }

  lemma {:induction false} CounterRunIs(f: FanConfig, dead: nat, zones: nat, counter: int)
    requires CountsDeadFans(f)
    ensures CounterRun(f, dead, zones, counter) ==
            if zones == 0 then counter else if dead == f.fans then counter + zones else 0
  {
    if zones > 0 {
      CounterRunIs(f, dead, zones - 1, counter);
    }
  }

  /** In how many cycles up to the last every fan was dead. */
  function AllDeadFor(f: FanConfig, deads: seq<nat>): nat {
    if deads == [] || deads[|deads| - 1] != f.fans then 0 else 1 + AllDeadFor(f, deads[..|deads| - 1])
  }

  /** The counter is taken for a number of cycles but counts zone passes: after any run
      it is the number of zones times that of the cycles every fan has been dead
      for, so right exactly with one zone or while some fan works. */
  lemma {:induction false} CounterCountsZonePasses(f: FanConfig, deads: seq<nat>, zones: nat)
    requires CountsDeadFans(f)
    ensures CounterCycles(f, deads, zones) == AllDeadFor(f, deads) * zones
    ensures CounterCycles(f, deads, zones) == AllDeadFor(f, deads) <==> zones == 1 || AllDeadFor(f, deads) == 0
  {
    if deads != [] {
      var init := deads[..|deads| - 1];
      CounterCountsZonePasses(f, init, zones);
      CounterRunIs(f, deads[|deads| - 1], zones, CounterCycles(f, init, zones));
    }
  }

  /** The host action is asked for in a pass exactly if, under a setting that is not
      progressive and names an action, all fans are dead and have been for as many
      zone passes as the threshold, this one included. */
  lemma HostAskedIff(f: FanConfig, deads: seq<nat>, zones: nat, passed: nat, dead: nat)
    requires CountsDeadFans(f) && passed < zones
    ensures var d := f.deadBoost.value;
            AsksHost(f, dead, CounterRun(f, dead, passed, CounterCycles(f, deads, zones))) <==>
            dead == f.fans && d.action && d.threshold != 0 && AllDeadFor(f, deads) * zones + passed + 1 >= d.threshold
  {
    CounterCountsZonePasses(f, deads, zones);
    CounterRunIs(f, dead, passed, CounterCycles(f, deads, zones));
  }

  lemma CountsDeadFansIff(f: FanConfig)
    ensures CountsDeadFans(f) <==> f.fanFail && !f.progressive && f.deadBoost.Some?
  {
  }

  // ----- The ramp -----

  function RampRun(rate: real, start: real, targets: seq<real>): real {
    if targets == [] then start
    else Ramp(rate, RampRun(rate, start, targets[..|targets| - 1]), targets[|targets| - 1])
  }

  /** n times the rate. */
  function Times(n: nat, rate: real): real {
    if n == 0 then 0.0 else Times(n - 1, rate) + rate
  }

  lemma {:induction false} TimesIs(n: nat, rate: real)
    ensures Times(n, rate) == n as real * rate
  {
    if n > 0 {
      TimesIs(n - 1, rate);
      assert n as real * rate == (n - 1) as real * rate + rate;
    }
  }

  /** Towards a constant target the distance shrinks by the ramp rate per cycle:
      it is reached in exactly the cycles whose moves together cover the distance. */
  lemma {:induction false} RampConverges(rate: real, start: real, target: real, targets: seq<real>)
    requires rate >= 0.0 && forall t :: t in targets ==> t == target
    ensures Distance(RampRun(rate, start, targets), target) ==
            Max2(0.0, Distance(start, target) - Times(|targets|, rate))
    ensures RampRun(rate, start, targets) == target <==> Times(|targets|, rate) >= Distance(start, target)
  {
    if targets != [] {
      var init := targets[..|targets| - 1];
      assert targets[|targets| - 1] in targets && forall t :: t in init ==> t in targets;
      RampConverges(rate, start, target, init);
    }
  }

  /** That is, n cycles suffice exactly if n times the ramp rate covers the distance. */
  lemma RampArrivesIff(rate: real, start: real, target: real, targets: seq<real>, n: nat)
    requires rate >= 0.0 && n == |targets| && forall t :: t in targets ==> t == target
    ensures RampRun(rate, start, targets) == target <==> n as real * rate >= Distance(start, target)
  {
    RampConverges(rate, start, target, targets);
    TimesIs(n, rate);
  }

  /** Against changing targets: as long as all are at least `low` the output climbs
      to `low` at the ramp rate, and falls to `high` when all are at most that. */
  lemma {:induction false} RampReaches(rate: real, start: real, targets: seq<real>, n: nat, low: real, high: real)
    requires rate >= 0.0 && n == |targets| && forall t :: t in targets ==> low <= t <= high
    ensures Min2(low, start + Times(n, rate)) <= RampRun(rate, start, targets) <= Max2(high, start - Times(n, rate))
  {
    if n > 0 {
      var init := targets[..n - 1];
      assert targets[n - 1] in targets && forall t :: t in init ==> t in targets;
      RampReaches(rate, start, init, n - 1, low, high);
    }
  }

  // ----- Whole runs of one zone -----

  datatype Cycle = Cycle(input: Input, dead: nat, trayOut: bool)

  function Cycles(f: FanConfig, c: Config, vars: seq<Variable>, s: ZoneState, cycles: seq<Cycle>): (after: ZoneState)
    requires |vars| == |s.slots|
    ensures |after.slots| == |vars|
  {
    if cycles == [] then s
    else
      var x := cycles[|cycles| - 1];
      Pass(f, c, vars, Cycles(f, c, vars, s, cycles[..|cycles| - 1]), x.input, x.dead, x.trayOut)
  }

  /** The target of cycle i, in the state the cycles before it left. */
  function TargetAt(f: FanConfig, c: Config, vars: seq<Variable>, s: ZoneState, cycles: seq<Cycle>, i: nat): Result
    requires |vars| == |s.slots| && i < |cycles|
  {
    var x := cycles[i];
    Target(f, c, vars, Cycles(f, c, vars, s, cycles[..i]), x.input, x.dead, x.trayOut)
  }

  predicate InRange(x: real) {
    0.0 <= x <= 100.0
  }

  lemma ProgressiveInRange(data: seq<DeadRate>, boost: real, pwm: real, dead: nat)
    requires InRange(boost) && InRange(pwm)
    ensures InRange(Progressive(data, boost, pwm, dead))
  {
  }

  lemma TargetInRange(f: FanConfig, c: Config, vars: seq<Variable>, s: ZoneState, input: Input, dead: nat,
                      trayOut: bool)
    requires |vars| == |s.slots| && InRange(f.boost)
    ensures var t := Target(f, c, vars, s, input, dead, trayOut); t.Pwm? ==> InRange(t.pwm)
  {
    var res := if trayOut then Pwm(f.boost) else RunZone(c, vars, s, input).0;
    if res.Pwm? {
      if !trayOut {
        ResultIsPercentage(c, vars, s, input);
      }
      if IsProgressive(f) {
        ProgressiveInRange(f.deadBoost.value.data, f.boost, res.pwm, dead);
      }
    }
  }

  /** Over any run, with exceptions or without, the output stays a percentage and
      no cycle moves it by more than the ramp rate. */
  lemma {:induction false} OutputStaysInRange(f: FanConfig, c: Config, vars: seq<Variable>, s: ZoneState,
                                              cycles: seq<Cycle>)
    requires |vars| == |s.slots| && InRange(f.boost) && f.rampRate >= 0.0 && InRange(s.lastPwm)
    ensures InRange(Cycles(f, c, vars, s, cycles).lastPwm)
    ensures cycles != [] ==>
              var before := Cycles(f, c, vars, s, cycles[..|cycles| - 1]).lastPwm;
              Distance(before, Cycles(f, c, vars, s, cycles).lastPwm) <= f.rampRate
  {
    if cycles != [] {
      var x := cycles[|cycles| - 1];
      var before := Cycles(f, c, vars, s, cycles[..|cycles| - 1]);
      OutputStaysInRange(f, c, vars, s, cycles[..|cycles| - 1]);
      TargetInRange(f, c, vars, before, x.input, x.dead, x.trayOut);
    }
  }

  /** No cycle raised, and these were its targets. */
  ghost predicate Targets(f: FanConfig, c: Config, vars: seq<Variable>, s: ZoneState, cycles: seq<Cycle>, ts: seq<real>)
    requires |vars| == |s.slots|
  {
    |ts| == |cycles| && forall i :: 0 <= i < |cycles| ==> TargetAt(f, c, vars, s, cycles, i) == Pwm(ts[i])
  }

  lemma TargetAtPrefix(f: FanConfig, c: Config, vars: seq<Variable>, s: ZoneState, cycles: seq<Cycle>, i: nat)
    requires |vars| == |s.slots| && i < |cycles| - 1
    ensures TargetAt(f, c, vars, s, cycles[..|cycles| - 1], i) == TargetAt(f, c, vars, s, cycles, i)
  {
    assert cycles[..|cycles| - 1][..i] == cycles[..i];
  }

  /** Without exceptions the output follows the targets by the ramp alone. */
  lemma {:induction false} OutputFollowsTargets(f: FanConfig, c: Config, vars: seq<Variable>, s: ZoneState,
                                                cycles: seq<Cycle>, ts: seq<real>)
    requires |vars| == |s.slots| && Targets(f, c, vars, s, cycles, ts)
    ensures Cycles(f, c, vars, s, cycles).lastPwm == RampRun(f.rampRate, s.lastPwm, ts)
  {
    if cycles != [] {
      var n := |cycles| - 1;
      forall i: nat | i < n ensures TargetAt(f, c, vars, s, cycles[..n], i) == Pwm(ts[..n][i]) {
        TargetAtPrefix(f, c, vars, s, cycles, i);
      }
      OutputFollowsTargets(f, c, vars, s, cycles[..n], ts[..n]);
      assert TargetAt(f, c, vars, s, cycles, n) == Pwm(ts[n]);
    }
  }

  lemma OutputEnd(f: FanConfig, c: Config, vars: seq<Variable>, s: ZoneState, cycles: seq<Cycle>, ts: seq<real>)
    returns (end: real)
    requires |vars| == |s.slots| && Targets(f, c, vars, s, cycles, ts)
    ensures end == Cycles(f, c, vars, s, cycles).lastPwm == RampRun(f.rampRate, s.lastPwm, ts)
  {
    OutputFollowsTargets(f, c, vars, s, cycles, ts);
    end := RampRun(f.rampRate, s.lastPwm, ts);
  }

  /** So n cycles whose targets lie within bounds draw the output into them, by n times
      the ramp rate at most. */
  lemma OutputReaches(f: FanConfig, c: Config, vars: seq<Variable>, s: ZoneState, cycles: seq<Cycle>, ts: seq<real>,
                      n: nat, low: real, high: real) returns (end: real)
    requires |vars| == |s.slots| && f.rampRate >= 0.0 && Targets(f, c, vars, s, cycles, ts) && n == |ts|
    requires forall t :: t in ts ==> low <= t <= high
    ensures end == Cycles(f, c, vars, s, cycles).lastPwm
    ensures Min2(low, s.lastPwm + Times(n, f.rampRate)) <= end <= Max2(high, s.lastPwm - Times(n, f.rampRate))
  {
    RampReaches(f.rampRate, s.lastPwm, ts, n, low, high);
    end := OutputEnd(f, c, vars, s, cycles, ts);
  }

  /** Dead fans never lower the target below the boost speed, unless a progressive
      rate is negative. */
  lemma {:induction false} ProgressiveKeeps(data: seq<DeadRate>, boost: real, pwm: real, dead: nat, low: real)
    requires low <= boost && low <= 100.0 && low <= pwm && forall r :: r in data ==> r.rate >= 0.0
    ensures Progressive(data, boost, pwm, dead) >= low
  {
    if data != [] {
      if dead <= data[0].upTo {
        assert dead as real * data[0].rate >= 0.0;
      } else {
        ProgressiveKeeps(data[1..], boost, pwm, dead, low);
      }
    }
  }

  ghost predicate RatesRaise(f: FanConfig) {
    f.deadBoost.Some? ==> forall r :: r in f.deadBoost.value.data ==> r.rate >= 0.0
  }

  /** Some considered sensor is critical or down, and that asks for at least `low`. */
  ghost predicate Alarm(c: Config, vars: seq<Variable>, s: ZoneState, input: Input, low: real)
    requires |vars| == |s.slots|
  {
    exists k :: 0 <= k < |vars| &&
      ((Critical(Look(vars[k], s.slots[k], input)) && low <= c.transitional) ||
       (SensorDown(c, vars[k], s.slots[k], input) && low <= c.boost))
  }

  lemma TargetUnderAlarm(f: FanConfig, c: Config, vars: seq<Variable>, s: ZoneState, input: Input, dead: nat,
                         trayOut: bool, low: real)
    requires |vars| == |s.slots| && RatesRaise(f) && low <= f.boost && low <= 100.0 && Alarm(c, vars, s, input, low)
    requires Target(f, c, vars, s, input, dead, trayOut).Pwm?
    ensures Target(f, c, vars, s, input, dead, trayOut).pwm >= low
  {
    var res := if trayOut then Pwm(f.boost) else RunZone(c, vars, s, input).0;
    if !trayOut {
      FailSafe(c, vars, s, input);
    }
    if IsProgressive(f) {
      ProgressiveKeeps(f.deadBoost.value.data, f.boost, res.pwm, dead, low);
    }
  }

  ghost predicate AlarmAt(f: FanConfig, c: Config, vars: seq<Variable>, s: ZoneState, cycles: seq<Cycle>, i: nat,
                          low: real)
    requires |vars| == |s.slots| && i < |cycles|
  {
    Alarm(c, vars, Cycles(f, c, vars, s, cycles[..i]), cycles[i].input, low)
  }

  lemma TargetAtUnderAlarm(f: FanConfig, c: Config, vars: seq<Variable>, s: ZoneState, cycles: seq<Cycle>, i: nat,
                           low: real)
    requires |vars| == |s.slots| && i < |cycles| && RatesRaise(f) && low <= f.boost && InRange(f.boost)
    requires AlarmAt(f, c, vars, s, cycles, i, low) && TargetAt(f, c, vars, s, cycles, i).Pwm?
    ensures low <= TargetAt(f, c, vars, s, cycles, i).pwm <= 100.0
  {
    var before := Cycles(f, c, vars, s, cycles[..i]);
    TargetUnderAlarm(f, c, vars, before, cycles[i].input, cycles[i].dead, cycles[i].trayOut, low);
    TargetInRange(f, c, vars, before, cycles[i].input, cycles[i].dead, cycles[i].trayOut);
  }

  /** Fail-safe with its latency: if in each of n cycles some sensor asks for at
      least `low`, the output has climbed to that, or by n times the ramp rate;
      dead fans and a tray that is out do not stand in the way of any `low` up to
      the boost speed. */
  lemma FailSafeLatency(f: FanConfig, c: Config, vars: seq<Variable>, s: ZoneState, cycles: seq<Cycle>, ts: seq<real>,
                        n: nat, low: real) returns (end: real)
    requires |vars| == |s.slots| && f.rampRate >= 0.0 && InRange(f.boost) && low <= f.boost && RatesRaise(f)
    requires Targets(f, c, vars, s, cycles, ts) && n == |cycles|
    requires forall i :: 0 <= i < n ==> AlarmAt(f, c, vars, s, cycles, i, low)
    ensures end == Cycles(f, c, vars, s, cycles).lastPwm && end >= Min2(low, s.lastPwm + Times(n, f.rampRate))
  {
    forall i: nat | i < n ensures low <= ts[i] <= 100.0 {
      assert TargetAt(f, c, vars, s, cycles, i) == Pwm(ts[i]) && AlarmAt(f, c, vars, s, cycles, i, low);
      TargetAtUnderAlarm(f, c, vars, s, cycles, i, low);
    }
    end := OutputReaches(f, c, vars, s, cycles, ts, n, low, 100.0);
  }
}
