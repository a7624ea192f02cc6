/**
 The two fan profiles: a threshold table with hysteresis and a PID controller.
 Both keep their state between runs; values are exact reals.
 */
module FscControl {
  import opened Wrappers

  // ----- Threshold table -----

  datatype Row = Row(threshold: real, out: real)

  /** The value the table was last evaluated at, and what that gave. */
  datatype TableState = TableState(compared: real, lastOut: Option<real>)

  predicate Descending(table: seq<Row>) {
    |table| <= 1 || (table[0].threshold >= table[1].threshold && Descending(table[1..]))
  }

  /** Stable insertion into a descending table. */
  function Insert(table: seq<Row>, r: Row): seq<Row> {
    if table == [] then [r]
    else if table[0].threshold < r.threshold then [r] + table
    else [table[0]] + Insert(table[1..], r)
  }

  lemma {:induction false} InsertKeepsOrder(table: seq<Row>, r: Row)
    requires Descending(table)
    ensures Descending(Insert(table, r))
  {
    if table != [] {
      if table[0].threshold < r.threshold {
        assert ([r] + table)[1..] == table;
      } else {
        InsertKeepsOrder(table[1..], r);
        assert Insert(table, r)[1..] == Insert(table[1..], r);
      }
    }
  }

  lemma {:induction false} InsertKeepsRows(table: seq<Row>, r: Row)
    ensures multiset(Insert(table, r)) == multiset(table) + multiset{r}
  {
    if table != [] {
      assert table == [table[0]] + table[1..];
      if table[0].threshold >= r.threshold {
        InsertKeepsRows(table[1..], r);
      }
    }
  }

  function Sorted(table: seq<Row>): (t: seq<Row>)
    ensures Descending(t) && multiset(t) == multiset(table)
  {
    if table == [] then []
    else
      assert table == table[..|table| - 1] + [table[|table| - 1]];
      InsertKeepsOrder(Sorted(table[..|table| - 1]), table[|table| - 1]);
      InsertKeepsRows(Sorted(table[..|table| - 1]), table[|table| - 1]);
      Insert(Sorted(table[..|table| - 1]), table[|table| - 1])
  }

  /** The rows of one threshold, in their order. */
  function RowsAt(table: seq<Row>, threshold: real): seq<Row> {
    if table == [] then []
    else (if table[0].threshold == threshold then [table[0]] else []) + RowsAt(table[1..], threshold)
  }

  lemma {:induction false} RowsAtAppend(a: seq<Row>, b: seq<Row>, threshold: real)
    ensures RowsAt(a + b, threshold) == RowsAt(a, threshold) + RowsAt(b, threshold)
  {
    if a == [] {
      assert a + b == b;
    } else {
      RowsAtAppend(a[1..], b, threshold);
      RowsAtFirst(a[0], a[1..], threshold);
      RowsAtFirst(a[0], a[1..] + b, threshold);
      assert a == [a[0]] + a[1..];
      assert a + b == [a[0]] + (a[1..] + b);
    }
  }

  lemma RowsAtFirst(r: Row, rest: seq<Row>, threshold: real)
    ensures RowsAt([r] + rest, threshold) == (if r.threshold == threshold then [r] else []) + RowsAt(rest, threshold)
  {
    assert ([r] + rest)[1..] == rest;
  }

  lemma {:induction false} InsertIsStable(table: seq<Row>, r: Row, threshold: real)
    requires Descending(table)
    ensures RowsAt(Insert(table, r), threshold) == RowsAt(table + [r], threshold)
  {
    RowsAtAppend(table, [r], threshold);
    if table == [] {
      assert table + [r] == [r];
    } else if table[0].threshold < r.threshold {
      RowsAtAppend([r], table, threshold);
      NoRowsAbove(table, r.threshold);
    } else {
      InsertIsStable(table[1..], r, threshold);
      RowsAtAppend(table[1..], [r], threshold);
      assert ([table[0]] + Insert(table[1..], r))[1..] == Insert(table[1..], r);
    }
  }

  lemma {:induction false} NoRowsAbove(table: seq<Row>, threshold: real)
    requires Descending(table) && (table != [] ==> table[0].threshold < threshold)
    ensures RowsAt(table, threshold) == []
  {
    if table != [] {
      NoRowsAbove(table[1..], threshold);
    }
  }

  /** Rows of equal threshold keep their order, so the first given one is looked up. */
  lemma {:induction false} SortedIsStable(table: seq<Row>, threshold: real)
    ensures RowsAt(Sorted(table), threshold) == RowsAt(table, threshold)
  {
    if table != [] {
      var n := |table| - 1;
      SortedIsStable(table[..n], threshold);
      InsertIsStable(Sorted(table[..n]), table[n], threshold);
      RowsAtAppend(Sorted(table[..n]), [table[n]], threshold);
      RowsAtAppend(table[..n], [table[n]], threshold);
      assert table == table[..n] + [table[n]];
    }
  }

  /** The stateless reading of a table: the first row reached from the top, else
      the last row. */
  function Lookup(table: seq<Row>, v: real): real {
    if table == [] then 0.0
    else if v >= table[0].threshold || |table| == 1 then table[0].out
    else Lookup(table[1..], v)
  }

  function Abs(x: real): real {
    if x < 0.0 then -x else x
  }

  predicate Held(compared: real, v: real, neg: real, pos: real) {
    (v >= compared && Abs(compared - v) <= pos) || (v <= compared && Abs(compared - v) <= neg)
  }

  function TableStep(table: seq<Row>, neg: real, pos: real, s: TableState, v: real): TableState {
    if Held(s.compared, v, neg, pos) then s else TableState(v, Some(Lookup(table, v)))
  }

  class TTable {
    const table: seq<Row>
    const neghyst: real
    const poshyst: real
    var compareFscValue: real
    var lastOut: Option<real>

    constructor (table: seq<Row>, neg: real, pos: real)
      ensures this.table == Sorted(table) && neghyst == neg && poshyst == pos
      ensures State() == TableState(0.0, None)
    {
      this.table, neghyst, poshyst := Sorted(table), neg, pos;
      compareFscValue, lastOut := 0.0, None;
    }

    function State(): TableState
      reads this
    {
      TableState(compareFscValue, lastOut)
    }

    method Run(value: real) returns (out: Option<real>)
      modifies this
      ensures State() == TableStep(table, neghyst, poshyst, old(State()), value)
      ensures out == lastOut
    {
      var mini := 0.0;
      if value >= compareFscValue && Abs(compareFscValue - value) <= poshyst {
        return lastOut;
      }
      if value <= compareFscValue && Abs(compareFscValue - value) <= neghyst {
        return lastOut;
      }
      for i := 0 to |table|
        invariant State() == old(State())
        invariant i < |table| ==> Lookup(table, value) == Lookup(table[i..], value)
        invariant i == |table| ==> mini == Lookup(table, value)
      {
        mini := table[i].out;
        if value >= table[i].threshold {
          compareFscValue := value;
          lastOut := Some(table[i].out);
          return lastOut;
        }
      }
      compareFscValue := value;
      lastOut := Some(mini);
      return lastOut;
    }
  }

  /** The state after a run over all of `vs`. */
  function TableRun(table: seq<Row>, neg: real, pos: real, vs: seq<real>): TableState {
    if vs == [] then TableState(0.0, None)
    else TableStep(table, neg, pos, TableRun(table, neg, pos, vs[..|vs| - 1]), vs[|vs| - 1])
  }

  /** Over any run the output, once there is one, is the lookup of a remembered
      value that lies within the hysteresis band of the current one. */
  lemma {:induction false} TableStaysInBand(table: seq<Row>, neg: real, pos: real, vs: seq<real>)
    requires vs != [] && neg >= 0.0 && pos >= 0.0
    ensures var s := TableRun(table, neg, pos, vs);
            var v := vs[|vs| - 1];
            && v - pos <= s.compared <= v + neg
            && (s.lastOut.Some? ==> s.lastOut.value == Lookup(table, s.compared))
            && (s.lastOut.None? ==> s.compared == 0.0)
  {
    if |vs| > 1 {
      TableStaysInBand(table, neg, pos, vs[..|vs| - 1]);
    }
  }

  /** No output exactly as long as every value so far was within the band around 0. */
  lemma {:induction false} NoOutputIff(table: seq<Row>, neg: real, pos: real, vs: seq<real>)
    ensures TableRun(table, neg, pos, vs).lastOut.None? <==> forall v :: v in vs ==> Held(0.0, v, neg, pos)
    ensures TableRun(table, neg, pos, vs).lastOut.None? ==> TableRun(table, neg, pos, vs).compared == 0.0
  {
    if vs != [] {
      NoOutputIff(table, neg, pos, vs[..|vs| - 1]);
      assert vs == vs[..|vs| - 1] + [vs[|vs| - 1]];
    }
  }

  /** How a run goes on with another value: from a remembered value in reach of it,
      the positive hysteresis below or the negative one above, everything stays;
      otherwise the value is remembered and looked up. */
  lemma TableGoesOn(table: seq<Row>, neg: real, pos: real, vs: seq<real>, v: real)
    ensures var (was, now) := (TableRun(table, neg, pos, vs), TableRun(table, neg, pos, vs + [v]));
            if was.compared <= v <= was.compared + pos || was.compared - neg <= v <= was.compared then now == was
            else now.compared == v && now.lastOut == Some(Lookup(table, v))
    ensures TableRun(table, neg, pos, []).compared == 0.0 && TableRun(table, neg, pos, []).lastOut == None
  {
    assert (vs + [v])[..|vs|] == vs;
  }

  /** So values within the hysteresis of a remembered one never change the output. */
  lemma {:induction false} TableHoldsOutput(table: seq<Row>, neg: real, pos: real, vs: seq<real>, more: seq<real>)
    requires var c := TableRun(table, neg, pos, vs).compared;
             forall v :: v in more ==> c <= v <= c + pos || c - neg <= v <= c
    ensures TableRun(table, neg, pos, vs + more) == TableRun(table, neg, pos, vs)
  {
    if more == [] {
      assert vs + more == vs;
    } else {
      var n := |more| - 1;
      assert more[n] in more && forall v :: v in more[..n] ==> v in more;
      TableHoldsOutput(table, neg, pos, vs, more[..n]);
      TableGoesOn(table, neg, pos, vs + more[..n], more[n]);
      assert vs + more == vs + more[..n] + [more[n]];
    }
  }

  /** Without hysteresis the output is the stateless lookup. */
  lemma ZeroHysteresisIsLookup(table: seq<Row>, vs: seq<real>)
    requires vs != [] && TableRun(table, 0.0, 0.0, vs).lastOut.Some?
    ensures TableRun(table, 0.0, 0.0, vs).lastOut.value == Lookup(table, vs[|vs| - 1])
  {
    TableStaysInBand(table, 0.0, 0.0, vs);
  }

  lemma {:induction false} HeadIsTop(table: seq<Row>)
    requires Descending(table)
    ensures forall r :: r in table ==> r.threshold <= table[0].threshold
  {
    if |table| > 1 {
      HeadIsTop(table[1..]);
      assert table == [table[0]] + table[1..];
    }
  }

  /** The row of the highest threshold that `v` reaches, or of the lowest if none is. */
  ghost predicate HighestReached(table: seq<Row>, v: real, r: Row) {
    && r in table
    && (if exists q :: q in table && q.threshold <= v
        then r.threshold <= v && forall q :: q in table && q.threshold <= v ==> q.threshold <= r.threshold
        else forall q :: q in table ==> r.threshold <= q.threshold)
  }

  /** In a sorted table the lookup is the output of that row; without rows it is 0. */
  lemma {:induction false} LookupIsHighestReached(table: seq<Row>, v: real)
    requires Descending(table)
    ensures table == [] ==> Lookup(table, v) == 0.0
    ensures table != [] ==> exists r :: HighestReached(table, v, r) && r.out == Lookup(table, v)
  {
    if table == [] {
      return;
    }
    HeadIsTop(table);
    if v >= table[0].threshold || |table| == 1 {
      assert HighestReached(table, v, table[0]);
    } else {
      LookupIsHighestReached(table[1..], v);
      assert table == [table[0]] + table[1..];
      var r :| HighestReached(table[1..], v, r) && r.out == Lookup(table[1..], v);
      assert HighestReached(table, v, r);
    }
  }

  /** Higher thresholds never ask for less. */
  predicate OutputsRise(table: seq<Row>) {
    forall i, j :: 0 <= i < j < |table| ==> table[i].out >= table[j].out
  }

  lemma {:induction false} LookupMonotone(table: seq<Row>, v: real, w: real)
    requires OutputsRise(table) && v <= w
    ensures Lookup(table, v) <= Lookup(table, w)
  {
    if |table| > 1 && v < table[0].threshold {
      if w >= table[0].threshold {
        LookupIsOut(table[1..], v);
      } else {
        LookupMonotone(table[1..], v, w);
      }
    }
  }

  lemma {:induction false} LookupIsOut(table: seq<Row>, v: real)
    requires table != []
    ensures exists r :: r in table && r.out == Lookup(table, v)
  {
    if v >= table[0].threshold || |table| == 1 {
      assert table[0] in table;
    } else {
      LookupIsOut(table[1..], v);
      var r :| r in table[1..] && r.out == Lookup(table[1..], v);
      assert r in table;
    }
  }

  /** So for a rising table the output lies between the lookups at the two ends of the band. */
  lemma TableOutputBetween(table: seq<Row>, neg: real, pos: real, vs: seq<real>)
    requires OutputsRise(table) && neg >= 0.0 && pos >= 0.0
    requires vs != [] && TableRun(table, neg, pos, vs).lastOut.Some?
    ensures var v := vs[|vs| - 1];
            Lookup(table, v - pos) <= TableRun(table, neg, pos, vs).lastOut.value <= Lookup(table, v + neg)
  {
    var s := TableRun(table, neg, pos, vs);
    var v := vs[|vs| - 1];
    TableStaysInBand(table, neg, pos, vs);
    LookupMonotone(table, v - pos, s.compared);
    LookupMonotone(table, s.compared, v + neg);
  }

  // ----- PID -----

  datatype Gains = Gains(kp: real, ki: real, kd: real, minval: real, maxval: real)

  datatype PidState = PidState(lastError: real, integral: real, lastOut: Option<real>)

  function PidIntegral(integral: real, error: real, dt: real): real {
    integral + error * dt
  }

  function PidRate(error: real, lastError: real, dt: real): real
    requires dt != 0.0
  {
    (error - lastError) / dt
  }

  function PidOut(g: Gains, error: real, integral: real, d: real): real {
    g.kp * error + g.ki * integral + g.kd * d
  }

  /** One run: whether it raised, and the state it left.  The source divides by
      the time step above the band; the reset below the band comes first. */
  function PidStep(g: Gains, s: PidState, v: real, dt: real): (bool, PidState) {
    var s1 := if v < g.minval then s.(integral := 0.0, lastOut := None) else s;
    if v > g.maxval then
      if dt == 0.0 then (true, s1)
      else
        var error := g.maxval - v;
        var i := PidIntegral(s1.integral, error, dt);
        var d := PidRate(error, s1.lastError, dt);
        (false, PidState(error, i, Some(PidOut(g, error, i, d))))
    else (false, s1)
  }

  class PID {
    const g: Gains
    var lastError: real
    var integral: real
    var lastOut: Option<real>

    constructor (g: Gains)
      ensures this.g == g && State() == PidState(0.0, 0.0, None)
    {
      this.g := g;
      lastError, integral, lastOut := 0.0, 0.0, None;
    }

    function State(): PidState
      reads this
    {
      PidState(lastError, integral, lastOut)
    }

    method Run(value: real, dt: real) returns (raised: bool, out: Option<real>)
      modifies this
      ensures (raised, State()) == PidStep(g, old(State()), value, dt)
      ensures !raised ==> out == lastOut
    {
      if value < g.minval {
        integral := 0.0;
        lastOut := None;
      }
      if value > g.maxval {
        var error := g.maxval - value;
        if dt == 0.0 {
          // the sum gains error * 0 before the division raises
          return true, None;
        }
        integral := PidIntegral(integral, error, dt);
        var d := PidRate(error, lastError, dt);
        lastOut := Some(PidOut(g, error, integral, d));
        lastError := error;
        assert State() == PidStep(g, old(State()), value, dt).1;
      }
      return false, lastOut;
    }
  }

  datatype Sample = Sample(value: real, dt: real)

  function PidRun(g: Gains, xs: seq<Sample>): Option<PidState> {
    if xs == [] then Some(PidState(0.0, 0.0, None))
    else
      match PidRun(g, xs[..|xs| - 1])
      case None => None
      case Some(s) =>
        var (raised, s') := PidStep(g, s, xs[|xs| - 1].value, xs[|xs| - 1].dt);
        if raised then None else Some(s')
  }

  /** The error accumulated since the last sample below the band. */
  function Accumulated(g: Gains, xs: seq<Sample>): real {
    if xs == [] then 0.0
    else
      var x := xs[|xs| - 1];
      (if x.value < g.minval then 0.0 else Accumulated(g, xs[..|xs| - 1]))
      + (if x.value > g.maxval then (g.maxval - x.value) * x.dt else 0.0)
  }

  /** Sample k exceeded the band and none after it fell below. */
  predicate LastExceeds(g: Gains, xs: seq<Sample>, k: nat) {
    k < |xs| && xs[k].value > g.maxval && forall j :: k < j < |xs| ==> xs[j].value >= g.minval
  }

  lemma LastExceedsStep(g: Gains, xs: seq<Sample>, k: nat)
    requires xs != [] && g.minval <= g.maxval
    ensures var (n, x) := (|xs| - 1, xs[|xs| - 1]);
            LastExceeds(g, xs, k) <==>
              (k == n && x.value > g.maxval) || (k < n && x.value >= g.minval && LastExceeds(g, xs[..n], k))
  {
  }

  /** There is an output exactly when some sample exceeded the band after the
      last one below it, and the integral covers just the samples since then. */
  lemma {:induction false} PidOutputIff(g: Gains, xs: seq<Sample>)
    requires g.minval <= g.maxval && PidRun(g, xs).Some?
    ensures PidRun(g, xs).value.integral == Accumulated(g, xs)
    ensures PidRun(g, xs).value.lastOut.Some? <==> exists k :: LastExceeds(g, xs, k)
  {
    if xs != [] {
      var n := |xs| - 1;
      PidOutputIff(g, xs[..n]);
      forall k: nat
        ensures LastExceeds(g, xs, k) <==>
                (k == n && xs[n].value > g.maxval) ||
                (k < n && xs[n].value >= g.minval && LastExceeds(g, xs[..n], k))
      {
        LastExceedsStep(g, xs, k);
      }
      if xs[n].value > g.maxval {
        assert LastExceeds(g, xs, n);
      }
    }
  }

  /** The error of the last sample above the band, or 0 before the first. */
  function LastError(g: Gains, xs: seq<Sample>): real {
    if xs == [] then 0.0
    else if xs[|xs| - 1].value > g.maxval then g.maxval - xs[|xs| - 1].value
    else LastError(g, xs[..|xs| - 1])
  }

  lemma {:induction false} PidRemembersError(g: Gains, xs: seq<Sample>)
    requires PidRun(g, xs).Some?
    ensures PidRun(g, xs).value.lastError == LastError(g, xs)
  {
    if xs != [] {
      PidRemembersError(g, xs[..|xs| - 1]);
    }
  }

  lemma PidRunOn(g: Gains, xs: seq<Sample>, x: Sample)
    requires PidRun(g, xs).Some?
    ensures var (raised, s) := PidStep(g, PidRun(g, xs).value, x.value, x.dt);
            PidRun(g, xs + [x]) == if raised then None else Some(s)
  {
    assert (xs + [x])[..|xs|] == xs;
  }

  lemma PidStepAbove(g: Gains, s: PidState, x: Sample) returns (error: real, sum: real, rate: real)
    requires g.minval <= g.maxval < x.value && x.dt != 0.0
    ensures error == g.maxval - x.value
    ensures sum == s.integral + error * x.dt
    ensures rate == (error - s.lastError) / x.dt
    ensures PidStep(g, s, x.value, x.dt) == (false, PidState(error, sum, Some(PidOut(g, error, sum, rate))))
  {
    error := g.maxval - x.value;
    sum := PidIntegral(s.integral, error, x.dt);
    rate := PidRate(error, s.lastError, x.dt);
  }

  lemma PidOutIs(g: Gains, error: real, sum: real, rate: real)
    ensures PidOut(g, error, sum, rate) == g.kp * error + g.ki * sum + g.kd * rate
  {
  }

  /** What a sample above the band gives: the three terms over the errors so far. */
  lemma PidOutputAbove(g: Gains, xs: seq<Sample>, x: Sample) returns (error: real, sum: real, rate: real)
    requires g.minval <= g.maxval < x.value && x.dt != 0.0 && PidRun(g, xs).Some?
    ensures error == g.maxval - x.value
    ensures sum == Accumulated(g, xs) + error * x.dt
    ensures rate == (error - LastError(g, xs)) / x.dt
    ensures PidRun(g, xs + [x]).Some?
    ensures PidRun(g, xs + [x]).value.lastOut == Some(g.kp * error + g.ki * sum + g.kd * rate)
  {
    PidOutputIff(g, xs);
    PidRemembersError(g, xs);
    PidRunOn(g, xs, x);
    error, sum, rate := PidStepAbove(g, PidRun(g, xs).value, x);
    PidOutIs(g, error, sum, rate);
  }

  /** Below the band there is no output, within it the one there was. */
  lemma PidOutputElsewhere(g: Gains, xs: seq<Sample>, x: Sample)
    requires g.minval <= g.maxval && x.value <= g.maxval && PidRun(g, xs).Some?
    ensures PidRun(g, xs + [x]).Some?
    ensures PidRun(g, xs + [x]).value.lastOut == if x.value < g.minval then None else PidRun(g, xs).value.lastOut
  {
    PidRunOn(g, xs, x);
  }

  /** It raises exactly above the band with a zero time step. */
  lemma PidRaisesIff(g: Gains, xs: seq<Sample>, x: Sample)
    requires g.minval <= g.maxval && PidRun(g, xs).Some?
    ensures PidRun(g, xs + [x]).None? <==> x.value > g.maxval && x.dt == 0.0
  {
    PidRunOn(g, xs, x);
  }
}
