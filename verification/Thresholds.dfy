/**
 Threshold monitoring of one sensor: six severities, a retried check that raises
 each and one that settles it, and the poll that runs the twelve checks in order.
 Values are exact reals, compared in hundredths as FORMAT_CONV does.
 */
module Thresholds {
  import opened Wrappers

  datatype Level = Unc | Ucr | Unr | Lnc | Lcr | Lnr

  const MAX_SENSOR_CHECK_RETRY := 3
  const MAX_ASSERT_CHECK_RETRY := 1

  predicate Upper(t: Level) {
    t == Unc || t == Ucr || t == Unr
  }

  /** Per level: monitored at all, its limit, and whether the platform currently
      exempts it from being raised. */
  datatype Config = Config(flag: set<Level>, limit: map<Level, real>, posHyst: real, negHyst: real, ignored: set<Level>)

  predicate Complete(c: Config) {
    forall t: Level :: t in c.limit
  }

  /** Rounded to hundredths, halves up, by truncation toward zero. */
  function FormatConv(x: real): int {
    var y := x * 100.0 + 0.5;
    if y >= 0.0 then y.Floor else -((-y).Floor)
  }

  /** At or beyond the limit. */
  predicate Beyond(c: Config, t: Level, v: real)
    requires Complete(c)
  {
    if Upper(t) then FormatConv(v) >= FormatConv(c.limit[t]) else FormatConv(v) <= FormatConv(c.limit[t])
  }

  /** Not yet back inside by more than the hysteresis. */
  predicate Unsettled(c: Config, t: Level, v: real)
    requires Complete(c)
  {
    if Upper(t) then FormatConv(v) >= FormatConv(c.limit[t] - c.negHyst)
    else FormatConv(v) <= FormatConv(c.limit[t] + c.posHyst)
  }

  /** The levels a raise of `t` implies, and those a settling of `t` clears. */
  function Milder(t: Level): set<Level> {
    match t
    case Unr => {Unr, Ucr, Unc}
    case Ucr => {Ucr, Unc}
    case Unc => {Unc}
    case Lnr => {Lnr, Lcr, Lnc}
    case Lcr => {Lcr, Lnc}
    case Lnc => {Lnc}
  }

  function Graver(t: Level): set<Level> {
    match t
    case Unc => {Unr, Ucr, Unc}
    case Ucr => {Ucr, Unr}
    case Unr => {Unr}
    case Lnc => {Lnr, Lcr, Lnc}
    case Lcr => {Lcr, Lnr}
    case Lnr => {Lnr}
  }

  /** The sensor during a poll: its raised levels, the current value, and what the
      coming readings will be (None for a failed one, also when there is no more). */
  datatype Poll = Poll(bits: set<Level>, val: real, readings: seq<Option<real>>)

  /** One of the twelve checks of a poll. */
  datatype Check = Assert(t: Level) | Deassert(t: Level)

  /** What a check needs to see in every reading before it acts. */
  predicate Holds(c: Config, k: Check, v: real)
    requires Complete(c)
  {
    if k.Assert? then Beyond(c, k.t, v) else !Unsettled(c, k.t, v)
  }

  /** Does it hold of the value and of `retries` further readings?  The readings
      taken stay taken; a failed one ends the check. */
  function Persists(c: Config, k: Check, p: Poll, retries: nat): (bool, Poll)
    requires Complete(c)
    decreases retries
  {
    if !Holds(c, k, p.val) then (false, p)
    else if retries == 0 then (true, p)
    else if p.readings == [] then (false, p)
    else if p.readings[0].None? then (false, p.(readings := p.readings[1..]))
    else Persists(c, k, p.(val := p.readings[0].value, readings := p.readings[1..]), retries - 1)
  }

  function CheckAssert(c: Config, p: Poll, t: Level): Poll
    requires Complete(c)
  {
    if t in c.ignored || t !in c.flag || t in p.bits then p
    else
      var (raised, p') := Persists(c, Assert(t), p, MAX_ASSERT_CHECK_RETRY);
      if raised then p'.(bits := p'.bits + (Milder(t) * c.flag)) else p'
  }

  function CheckDeassert(c: Config, p: Poll, t: Level): Poll
    requires Complete(c)
  {
    if t !in c.flag || t !in p.bits then p
    else
      var (settled, p') := Persists(c, Deassert(t), p, MAX_SENSOR_CHECK_RETRY);
      if settled then p'.(bits := p'.bits - Graver(t)) else p'
  }

  /** The twelve checks in their order. */
  function PollOnce(c: Config, p: Poll): Poll
    requires Complete(c)
  {
    var p1 := CheckAssert(c, CheckAssert(c, CheckAssert(c, p, Unc), Ucr), Unr);
    var p2 := CheckAssert(c, CheckAssert(c, CheckAssert(c, p1, Lnc), Lcr), Lnr);
    var p3 := CheckDeassert(c, CheckDeassert(c, CheckDeassert(c, p2, Unr), Ucr), Unc);
    CheckDeassert(c, CheckDeassert(c, CheckDeassert(c, p3, Lnr), Lcr), Lnc)
  }

  class Sensor {
    const c: Config
    var currState: set<Level>
    var currVal: real
    var readings: seq<Option<real>>

    constructor (c: Config)
      ensures this.c == c && currState == {} && readings == []
    {
      this.c := c;
      currState, currVal, readings := {}, 0.0, [];
    }

    function State(): Poll
      reads this
    {
      Poll(currState, currVal, readings)
    }

    /** sensor_raw_read_helper */
    method ReadSensor() returns (ok: bool)
      modifies this`currVal, this`readings
      ensures ok <==> old(readings) != [] && old(readings)[0].Some?
      ensures readings == (if old(readings) == [] then [] else old(readings)[1..])
      ensures currVal == if ok then old(readings)[0].value else old(currVal)
    {
      if readings == [] {
        return false;
      }
      var r := readings[0];
      readings := readings[1..];
      if r.Some? {
        currVal := r.value;
      }
      return r.Some?;
    }

    method CheckThreshAssert(t: Level) returns (ret: int)
      requires Complete(c)
      modifies this`currState, this`currVal, this`readings
      ensures State() == CheckAssert(c, old(State()), t)
    {
      if t in c.ignored {
        return 0;
      }
      if t !in c.flag || t in currState {
        return 0;
      }
      var retry := 0;
      while retry <= MAX_ASSERT_CHECK_RETRY
        invariant 0 <= retry <= MAX_ASSERT_CHECK_RETRY + 1 && currState == old(currState)
        invariant retry <= MAX_ASSERT_CHECK_RETRY ==>
                    Persists(c, Assert(t), old(State()), MAX_ASSERT_CHECK_RETRY) ==
                    Persists(c, Assert(t), State(), MAX_ASSERT_CHECK_RETRY - retry)
        invariant retry > MAX_ASSERT_CHECK_RETRY ==>
                    Persists(c, Assert(t), old(State()), MAX_ASSERT_CHECK_RETRY) == (true, State())
      {
        if Upper(t) {
          if FormatConv(currVal) < FormatConv(c.limit[t]) {
            return 0;
          }
        } else {
          if FormatConv(currVal) > FormatConv(c.limit[t]) {
            return 0;
          }
        }
        if retry < MAX_ASSERT_CHECK_RETRY {
          var ok := ReadSensor();
          if !ok {
            return -1;
          }
        }
        retry := retry + 1;
      }
      currState := currState + (Milder(t) * c.flag);
      return 0;
    }

    method CheckThreshDeassert(t: Level) returns (ret: int)
      requires Complete(c)
      modifies this`currState, this`currVal, this`readings
      ensures State() == CheckDeassert(c, old(State()), t)
    {
      if t !in c.flag || t !in currState {
        return 0;
      }
      var retry := 0;
      while retry <= MAX_SENSOR_CHECK_RETRY
        invariant 0 <= retry <= MAX_SENSOR_CHECK_RETRY + 1 && currState == old(currState)
        invariant retry <= MAX_SENSOR_CHECK_RETRY ==>
                    Persists(c, Deassert(t), old(State()), MAX_SENSOR_CHECK_RETRY) ==
                    Persists(c, Deassert(t), State(), MAX_SENSOR_CHECK_RETRY - retry)
        invariant retry > MAX_SENSOR_CHECK_RETRY ==>
                    Persists(c, Deassert(t), old(State()), MAX_SENSOR_CHECK_RETRY) == (true, State())
      {
        if Upper(t) {
          if FormatConv(currVal) >= FormatConv(c.limit[t] - c.negHyst) {
            return 0;
          }
        } else {
          if FormatConv(currVal) <= FormatConv(c.limit[t] + c.posHyst) {
            return 0;
          }
        }
        if retry < MAX_SENSOR_CHECK_RETRY {
          var ok := ReadSensor();
          if !ok {
            return -1;
          }
        }
        retry := retry + 1;
      }
      currState := currState - Graver(t);
      return 0;
    }

    /** One poll of snr_monitor; `coming` are the readings it will see. */
    method Monitor(coming: seq<Option<real>>)
      requires Complete(c)
      modifies this
      ensures coming == [] || coming[0].None? ==> currState == old(currState)
      ensures coming != [] && coming[0].Some? ==>
                State() == PollOnce(c, Poll(old(currState), coming[0].value, coming[1..]))
    {
      readings := coming;
      currVal := 0.0;
      var ok := ReadSensor();
      if ok {
        var _ := CheckThreshAssert(Unc);
        var _ := CheckThreshAssert(Ucr);
        var _ := CheckThreshAssert(Unr);
        var _ := CheckThreshAssert(Lnc);
        var _ := CheckThreshAssert(Lcr);
        var _ := CheckThreshAssert(Lnr);
        var _ := CheckThreshDeassert(Unr);
        var _ := CheckThreshDeassert(Ucr);
        var _ := CheckThreshDeassert(Unc);
        var _ := CheckThreshDeassert(Lnr);
        var _ := CheckThreshDeassert(Lcr);
        var _ := CheckThreshDeassert(Lnc);
      }
    }
  }

  // ----- A steady reading -----

  lemma FormatConvMonotone(x: real, y: real)
    requires x <= y
    ensures FormatConv(x) <= FormatConv(y)
  {
  }

  /** Graver limits lie further out, and hysteresis widens. */
  predicate Ordered(c: Config)
    requires Complete(c)
  {
    && c.limit[Unc] <= c.limit[Ucr] <= c.limit[Unr]
    && c.limit[Lnc] >= c.limit[Lcr] >= c.limit[Lnr]
    && c.posHyst >= 0.0 && c.negHyst >= 0.0
  }

  /** All coming readings repeat the current one, and there are enough of them. */
  predicate Steady(p: Poll, v: real, enough: nat) {
    p.val == v && |p.readings| >= enough && forall r :: r in p.readings ==> r == Some(v)
  }

  lemma {:induction false} PersistsSteady(c: Config, k: Check, p: Poll, v: real, retries: nat, enough: nat)
    requires Complete(c) && Steady(p, v, enough) && enough >= retries
    ensures var (holds, p') := Persists(c, k, p, retries);
            (holds <==> Holds(c, k, v)) && p'.bits == p.bits && Steady(p', v, enough - retries)
    decreases retries
  {
    if Holds(c, k, v) && retries > 0 {
      assert p.readings[0] in p.readings && forall r :: r in p.readings[1..] ==> r in p.readings;
      PersistsSteady(c, k, p.(val := p.readings[0].value, readings := p.readings[1..]), v, retries - 1, enough - 1);
    }
  }

  /** A check under a steady reading, on the raised levels alone. */
  function SteadyAssert(c: Config, bits: set<Level>, v: real, t: Level): set<Level>
    requires Complete(c)
  {
    if t in c.flag && t !in bits && Beyond(c, t, v) then bits + (Milder(t) * c.flag) else bits
  }

  function SteadyDeassert(c: Config, bits: set<Level>, v: real, t: Level): set<Level>
    requires Complete(c)
  {
    if t in c.flag && t in bits && !Unsettled(c, t, v) then bits - Graver(t) else bits
  }

  lemma AssertSteady(c: Config, p: Poll, v: real, t: Level, enough: nat)
    requires Complete(c) && c.ignored == {} && Steady(p, v, enough) && enough >= 3
    ensures CheckAssert(c, p, t).bits == SteadyAssert(c, p.bits, v, t)
    ensures Steady(CheckAssert(c, p, t), v, enough - 3)
  {
    if t in c.flag && t !in p.bits {
      PersistsSteady(c, Assert(t), p, v, MAX_ASSERT_CHECK_RETRY, enough);
    }
  }

  lemma DeassertSteady(c: Config, p: Poll, v: real, t: Level, enough: nat)
    requires Complete(c) && Steady(p, v, enough) && enough >= 3
    ensures CheckDeassert(c, p, t).bits == SteadyDeassert(c, p.bits, v, t)
    ensures Steady(CheckDeassert(c, p, t), v, enough - 3)
  {
    if t in c.flag && t in p.bits {
      PersistsSteady(c, Deassert(t), p, v, MAX_SENSOR_CHECK_RETRY, enough);
    }
  }

  /** The rule one level follows: raised at the limit, kept up to the hysteresis. */
  predicate Rule(c: Config, was: set<Level>, v: real, t: Level)
    requires Complete(c)
  {
    t in c.flag && (Beyond(c, t, v) || (t in was && Unsettled(c, t, v)))
  }

  /** The levels after the six raising checks. */
  function Raised(c: Config, bits: set<Level>, v: real): set<Level>
    requires Complete(c)
  {
    var u := SteadyAssert(c, SteadyAssert(c, SteadyAssert(c, bits, v, Unc), v, Ucr), v, Unr);
    SteadyAssert(c, SteadyAssert(c, SteadyAssert(c, u, v, Lnc), v, Lcr), v, Lnr)
  }

  function Settled(c: Config, bits: set<Level>, v: real): set<Level>
    requires Complete(c)
  {
    var u := SteadyDeassert(c, SteadyDeassert(c, SteadyDeassert(c, bits, v, Unr), v, Ucr), v, Unc);
    SteadyDeassert(c, SteadyDeassert(c, SteadyDeassert(c, u, v, Lnr), v, Lcr), v, Lnc)
  }

  lemma LimitsNest(c: Config, v: real)
    requires Complete(c) && Ordered(c)
    ensures Beyond(c, Unr, v) ==> Beyond(c, Ucr, v)
    ensures Beyond(c, Ucr, v) ==> Beyond(c, Unc, v)
    ensures Beyond(c, Lnr, v) ==> Beyond(c, Lcr, v)
    ensures Beyond(c, Lcr, v) ==> Beyond(c, Lnc, v)
    ensures Unsettled(c, Unr, v) ==> Unsettled(c, Ucr, v)
    ensures Unsettled(c, Ucr, v) ==> Unsettled(c, Unc, v)
    ensures Unsettled(c, Lnr, v) ==> Unsettled(c, Lcr, v)
    ensures Unsettled(c, Lcr, v) ==> Unsettled(c, Lnc, v)
    ensures forall t: Level :: Beyond(c, t, v) ==> Unsettled(c, t, v)
  {
    NestUpper(c, Unc, Ucr, v);
    NestUpper(c, Ucr, Unr, v);
    NestLower(c, Lnc, Lcr, v);
    NestLower(c, Lcr, Lnr, v);
    forall t: Level | Beyond(c, t, v) ensures Unsettled(c, t, v) {
      BeyondIsUnsettled(c, t, v);
    }
  }

  lemma NestUpper(c: Config, mild: Level, grave: Level, v: real)
    requires Complete(c) && Upper(mild) && Upper(grave) && c.limit[mild] <= c.limit[grave]
    ensures Beyond(c, grave, v) ==> Beyond(c, mild, v)
    ensures Unsettled(c, grave, v) ==> Unsettled(c, mild, v)
  {
    FormatConvMonotone(c.limit[mild], c.limit[grave]);
    FormatConvMonotone(c.limit[mild] - c.negHyst, c.limit[grave] - c.negHyst);
  }

  lemma NestLower(c: Config, mild: Level, grave: Level, v: real)
    requires Complete(c) && !Upper(mild) && !Upper(grave) && c.limit[grave] <= c.limit[mild]
    ensures Beyond(c, grave, v) ==> Beyond(c, mild, v)
    ensures Unsettled(c, grave, v) ==> Unsettled(c, mild, v)
  {
    FormatConvMonotone(c.limit[grave], c.limit[mild]);
    FormatConvMonotone(c.limit[grave] + c.posHyst, c.limit[mild] + c.posHyst);
  }

  lemma BeyondIsUnsettled(c: Config, t: Level, v: real)
    requires Complete(c) && Ordered(c) && Beyond(c, t, v)
    ensures Unsettled(c, t, v)
  {
    FormatConvMonotone(c.limit[t] - c.negHyst, c.limit[t]);
    FormatConvMonotone(c.limit[t], c.limit[t] + c.posHyst);
  }

  lemma RaisedIs(c: Config, bits: set<Level>, v: real, t: Level)
    requires Complete(c) && Ordered(c) && bits <= c.flag
    ensures t in Raised(c, bits, v) <==> t in bits || (t in c.flag && Beyond(c, t, v))
  {
    LimitsNest(c, v);
  }

  lemma SettledIs(c: Config, bits: set<Level>, v: real, t: Level)
    requires Complete(c) && Ordered(c) && bits <= c.flag
    ensures t in Settled(c, bits, v) <==> t in bits && Unsettled(c, t, v)
  {
    LimitsNest(c, v);
  }

  /** Hundredths, halves up; below -0.005 what is cut off is cut toward zero. */
  lemma FormatConvIs(x: real)
    ensures x >= -0.005 ==> FormatConv(x) as real <= 100.0 * x + 0.5 < FormatConv(x) as real + 1.0
    ensures x < -0.005 ==> FormatConv(x) as real - 1.0 < 100.0 * x + 0.5 <= FormatConv(x) as real
  {
  }

  /** Which side a level watches and how grave it is there. */
  function Rank(t: Level): int {
    match t
    case Unc => 1
    case Ucr => 2
    case Unr => 3
    case Lnc => -1
    case Lcr => -2
    case Lnr => -3
  }

  /** With a steady reading, ordered limits and no exemption, the twelve checks amount
      to one rule for every level, in hundredths: raised at the limit, and kept while
      not back by more than the negative hysteresis below an upper limit, or the
      positive one above a lower limit. */
  lemma PollFollowsRule(c: Config, p: Poll, v: real, t: Level)
    requires Complete(c) && Ordered(c) && c.ignored == {} && p.bits <= c.flag && Steady(p, v, 36)
    ensures t == Unc || t == Ucr || t == Unr ==>
              (t in PollOnce(c, p).bits <==>
               t in c.flag && (FormatConv(v) >= FormatConv(c.limit[t]) ||
                               (t in p.bits && FormatConv(v) >= FormatConv(c.limit[t] - c.negHyst))))
    ensures t == Lnc || t == Lcr || t == Lnr ==>
              (t in PollOnce(c, p).bits <==>
               t in c.flag && (FormatConv(v) <= FormatConv(c.limit[t]) ||
                               (t in p.bits && FormatConv(v) <= FormatConv(c.limit[t] + c.posHyst))))
  {
    PollIsRule(c, p, v, t);
  }

  lemma PollIsRule(c: Config, p: Poll, v: real, t: Level)
    requires Complete(c) && Ordered(c) && c.ignored == {} && p.bits <= c.flag && Steady(p, v, 36)
    ensures t in PollOnce(c, p).bits <==> Rule(c, p.bits, v, t)
  {
    PollIsSteady(c, p, v);
    var up := Raised(c, p.bits, v);
    forall u: Level ensures u in up <==> u in p.bits || (u in c.flag && Beyond(c, u, v)) {
      RaisedIs(c, p.bits, v, u);
    }
    SettledIs(c, up, v, t);
    LimitsNest(c, v);
  }

  lemma PollIsSteady(c: Config, p: Poll, v: real)
    requires Complete(c) && c.ignored == {} && Steady(p, v, 36)
    ensures PollOnce(c, p).bits == Settled(c, Raised(c, p.bits, v), v)
  {
    var p1 := AssertsSteady(c, p, v, Unc, Ucr, Unr, 36);
    var p2 := AssertsSteady(c, p1, v, Lnc, Lcr, Lnr, 27);
    var p3 := DeassertsSteady(c, p2, v, Unr, Ucr, Unc, 18);
    var p4 := DeassertsSteady(c, p3, v, Lnr, Lcr, Lnc, 9);
  }

  lemma AssertsSteady(c: Config, p: Poll, v: real, t1: Level, t2: Level, t3: Level, enough: nat) returns (q: Poll)
    requires Complete(c) && c.ignored == {} && Steady(p, v, enough) && enough >= 9
    ensures q == CheckAssert(c, CheckAssert(c, CheckAssert(c, p, t1), t2), t3)
    ensures q.bits == SteadyAssert(c, SteadyAssert(c, SteadyAssert(c, p.bits, v, t1), v, t2), v, t3)
    ensures Steady(q, v, enough - 9)
  {
    var p1 := CheckAssert(c, p, t1);
    var p2 := CheckAssert(c, p1, t2);
    q := CheckAssert(c, p2, t3);
    AssertSteady(c, p, v, t1, enough);
    AssertSteady(c, p1, v, t2, enough - 3);
    AssertSteady(c, p2, v, t3, enough - 6);
  }

  lemma DeassertsSteady(c: Config, p: Poll, v: real, t1: Level, t2: Level, t3: Level, enough: nat) returns (q: Poll)
    requires Complete(c) && Steady(p, v, enough) && enough >= 9
    ensures q == CheckDeassert(c, CheckDeassert(c, CheckDeassert(c, p, t1), t2), t3)
    ensures q.bits == SteadyDeassert(c, SteadyDeassert(c, SteadyDeassert(c, p.bits, v, t1), v, t2), v, t3)
    ensures Steady(q, v, enough - 9)
  {
    var p1 := CheckDeassert(c, p, t1);
    var p2 := CheckDeassert(c, p1, t2);
    q := CheckDeassert(c, p2, t3);
    DeassertSteady(c, p, v, t1, enough);
    DeassertSteady(c, p1, v, t2, enough - 3);
    DeassertSteady(c, p2, v, t3, enough - 6);
  }

  // ----- Any readings -----

  /** The value and the next `n` readings, which all succeed. */
  predicate AllSeen(p: Poll, n: nat, test: real -> bool) {
    test(p.val) && n <= |p.readings| && forall k :: 0 <= k < n ==> p.readings[k].Some? && test(p.readings[k].value)
  }

  lemma {:induction false} PersistsIff(c: Config, k: Check, p: Poll, n: nat)
    requires Complete(c)
    ensures Persists(c, k, p, n).0 <==> AllSeen(p, n, v => Complete(c) && Holds(c, k, v))
    decreases n
  {
    if Holds(c, k, p.val) && n > 0 && p.readings != [] && p.readings[0].Some? {
      var q := p.(val := p.readings[0].value, readings := p.readings[1..]);
      PersistsIff(c, k, q, n - 1);
      if AllSeen(q, n - 1, v => Complete(c) && Holds(c, k, v)) {
        assert forall j :: 0 < j < n ==> p.readings[j] == q.readings[j - 1];
      } else if AllSeen(p, n, v => Complete(c) && Holds(c, k, v)) {
        assert forall j :: 0 <= j < n - 1 ==> q.readings[j] == p.readings[j + 1];
      }
    }
  }

  /** A level is raised, with the flagged ones on its side that are no graver, exactly
      if it is flagged, not raised yet, not exempt, and the value and one more reading
      have both reached the limit. */
  lemma RaisedOnceIff(c: Config, p: Poll, t: Level, m: Level)
    requires Complete(c)
    ensures var acts := t in c.flag && t !in p.bits && t !in c.ignored &&
                        if Rank(t) > 0 then AllSeen(p, 1, v => t in c.limit && FormatConv(v) >= FormatConv(c.limit[t]))
                        else AllSeen(p, 1, v => t in c.limit && FormatConv(v) <= FormatConv(c.limit[t]));
            var same := 0 < Rank(m) <= Rank(t) || Rank(t) <= Rank(m) < 0;
            m in CheckAssert(c, p, t).bits <==> m in p.bits || (acts && m in c.flag && same)
  {
    PersistsIff(c, Assert(t), p, 1);
    PersistsKeepsBits(c, Assert(t), p, 1);
  }

  /** A level is settled, with those on its side that are no milder, exactly if it is
      flagged and raised, and the value and three more readings are all back inside
      by more than the hysteresis. */
  lemma SettledOnceIff(c: Config, p: Poll, t: Level, m: Level)
    requires Complete(c)
    ensures var acts := t in c.flag && t in p.bits &&
                        if Rank(t) > 0
                        then AllSeen(p, 3, v => t in c.limit && FormatConv(v) < FormatConv(c.limit[t] - c.negHyst))
                        else AllSeen(p, 3, v => t in c.limit && FormatConv(v) > FormatConv(c.limit[t] + c.posHyst));
            var same := 0 < Rank(t) <= Rank(m) || Rank(m) <= Rank(t) < 0;
            m in CheckDeassert(c, p, t).bits <==> m in p.bits && !(acts && same)
  {
    PersistsIff(c, Deassert(t), p, 3);
    PersistsKeepsBits(c, Deassert(t), p, 3);
  }

  /** A raised level has every monitored milder one on its side raised with it. */
  ghost predicate Cascaded(c: Config, bits: set<Level>) {
    && bits <= c.flag
    && forall t, m: Level ::
         t in bits && m in c.flag && (0 < Rank(m) <= Rank(t) || Rank(t) <= Rank(m) < 0) ==> m in bits
  }

  lemma {:induction false} PersistsKeepsBits(c: Config, k: Check, p: Poll, retries: nat)
    requires Complete(c)
    ensures Persists(c, k, p, retries).1.bits == p.bits
    decreases retries
  {
    if Holds(c, k, p.val) && retries > 0 && p.readings != [] && p.readings[0].Some? {
      PersistsKeepsBits(c, k, p.(val := p.readings[0].value, readings := p.readings[1..]), retries - 1);
    }
  }

  lemma AssertKeepsCascade(c: Config, p: Poll, t: Level)
    requires Complete(c) && Cascaded(c, p.bits)
    ensures Cascaded(c, CheckAssert(c, p, t).bits)
  {
    PersistsKeepsBits(c, Assert(t), p, MAX_ASSERT_CHECK_RETRY);
    var bits := CheckAssert(c, p, t).bits;
    if bits != p.bits {
      forall m: Level ensures m in bits <==> m in p.bits || (m in c.flag && m in Milder(t)) {
      }
      forall m: Level ensures m in Milder(t) <==> (0 < Rank(m) <= Rank(t) || Rank(t) <= Rank(m) < 0) {
      }
    }
  }

  lemma DeassertKeepsCascade(c: Config, p: Poll, t: Level)
    requires Complete(c) && Cascaded(c, p.bits)
    ensures Cascaded(c, CheckDeassert(c, p, t).bits)
  {
    PersistsKeepsBits(c, Deassert(t), p, MAX_SENSOR_CHECK_RETRY);
    var bits := CheckDeassert(c, p, t).bits;
    if bits != p.bits {
      forall m: Level ensures m in bits <==> m in p.bits && m !in Graver(t) {
      }
      forall m: Level ensures m in Graver(t) <==> (0 < Rank(t) <= Rank(m) || Rank(m) <= Rank(t) < 0) {
      }
    }
  }

  /** Whatever is read, with whatever limits, in whatever order the checks come. */
  function Run(c: Config, p: Poll, checks: seq<Check>): Poll
    requires Complete(c)
    decreases checks
  {
    if checks == [] then p
    else
      var k := checks[0];
      Run(c, if k.Assert? then CheckAssert(c, p, k.t) else CheckDeassert(c, p, k.t), checks[1..])
  }

  lemma {:induction false} CascadeHolds(c: Config, p: Poll, checks: seq<Check>)
    requires Complete(c) && Cascaded(c, p.bits)
    ensures Cascaded(c, Run(c, p, checks).bits)
    decreases checks
  {
    if checks != [] {
      var k := checks[0];
      AssertKeepsCascade(c, p, k.t);
      DeassertKeepsCascade(c, p, k.t);
      CascadeHolds(c, if k.Assert? then CheckAssert(c, p, k.t) else CheckDeassert(c, p, k.t), checks[1..]);
    }
  }

  lemma RunOne(c: Config, p: Poll, k: Check, rest: seq<Check>)
    requires Complete(c)
    ensures Run(c, p, [k] + rest) ==
            Run(c, if k.Assert? then CheckAssert(c, p, k.t) else CheckDeassert(c, p, k.t), rest)
  {
    assert ([k] + rest)[1..] == rest;
  }

  lemma RunThree(c: Config, p: Poll, k1: Check, k2: Check, k3: Check, rest: seq<Check>)
    requires Complete(c)
    ensures Run(c, p, [k1, k2, k3] + rest) == Run(c, Run(c, p, [k1, k2, k3]), rest)
    ensures k1.Assert? && k2.Assert? && k3.Assert? ==>
              Run(c, p, [k1, k2, k3]) == CheckAssert(c, CheckAssert(c, CheckAssert(c, p, k1.t), k2.t), k3.t)
    ensures k1.Deassert? && k2.Deassert? && k3.Deassert? ==>
              Run(c, p, [k1, k2, k3]) == CheckDeassert(c, CheckDeassert(c, CheckDeassert(c, p, k1.t), k2.t), k3.t)
  {
    var p1 := Run(c, p, [k1]);
    var p2 := Run(c, p1, [k2]);
    assert [k1, k2, k3] == [k1] + ([k2] + ([k3] + []));
    assert [k1, k2, k3] + rest == [k1] + ([k2] + ([k3] + rest));
    RunOne(c, p, k1, []);
    RunOne(c, p, k1, [k2] + ([k3] + rest));
    RunOne(c, p, k1, [k2] + ([k3] + []));
    RunOne(c, p1, k2, []);
    RunOne(c, p1, k2, [k3] + rest);
    RunOne(c, p1, k2, [k3] + []);
    RunOne(c, p2, k3, []);
    RunOne(c, p2, k3, rest);
  }

  /** A poll is these twelve checks: raising from the mildest to the gravest level,
      upper before lower, then settling from the gravest to the mildest. */
  lemma PollOrder(c: Config, p: Poll)
    requires Complete(c)
    ensures PollOnce(c, p) ==
            Run(c, p, [Assert(Unc), Assert(Ucr), Assert(Unr), Assert(Lnc), Assert(Lcr), Assert(Lnr),
                       Deassert(Unr), Deassert(Ucr), Deassert(Unc), Deassert(Lnr), Deassert(Lcr), Deassert(Lnc)])
    ensures Cascaded(c, p.bits) ==> Cascaded(c, PollOnce(c, p).bits)
  {
    var r3 := [Deassert(Lnr), Deassert(Lcr), Deassert(Lnc)];
    var r2 := [Deassert(Unr), Deassert(Ucr), Deassert(Unc)] + r3;
    var r1 := [Assert(Lnc), Assert(Lcr), Assert(Lnr)] + r2;
    var checks := [Assert(Unc), Assert(Ucr), Assert(Unr)] + r1;
    var p1 := Run(c, p, [Assert(Unc), Assert(Ucr), Assert(Unr)]);
    var p2 := Run(c, p1, [Assert(Lnc), Assert(Lcr), Assert(Lnr)]);
    var p3 := Run(c, p2, [Deassert(Unr), Deassert(Ucr), Deassert(Unc)]);
    RunThree(c, p, Assert(Unc), Assert(Ucr), Assert(Unr), r1);
    RunThree(c, p1, Assert(Lnc), Assert(Lcr), Assert(Lnr), r2);
    RunThree(c, p2, Deassert(Unr), Deassert(Ucr), Deassert(Unc), r3);
    RunThree(c, p3, Deassert(Lnr), Deassert(Lcr), Deassert(Lnc), []);
    assert r3 + [] == r3;
    if Cascaded(c, p.bits) {
      CascadeHolds(c, p, checks);
    }
  }
}
