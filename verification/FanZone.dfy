/**
 One fan zone: each cycle it looks at every sensor its expression names, asks for
 a least speed where one is critical or failed, evaluates the expression and
 clamps the result.  Values are exact reals.
 */
module FanZone {
  import opened FscExpr
  import opened FscEval
  import opened Wrappers

  datatype Status = UpperCritical | NotAvailable | OtherStatus

  datatype Sensor = Sensor(name: string, value: Value, status: Status)

  /** An outside name of the expression, `board:sname`. */
  datatype Variable = Variable(board: string, sname: string) {
    function Key(): string { board + ":" + sname }
  }

  datatype Offset = Offset(upTo: int, extra: real)

  datatype Config = Config(transitional: real, boost: real, sensorFail: bool, ssdFail: bool,
                           offsets: Option<seq<Offset>>)

  /** What a zone remembers of one sensor: whether it was reported missing, how
      often in a row it was missing, and the last two validity answers. */
  datatype Slot = Slot(asserted: bool, retry: nat, validPre: int, validCur: int)

  /** A cycle's readings per board, the board's validity answers for the sensors
      that are checked, and the time since the last cycle. */
  datatype Input = Input(sensors: map<string, map<string, Sensor>>, valid: map<string, int>, dt: real)

  datatype ZoneState = ZoneState(expr: Node, slots: seq<Slot>, noSane: bool, lastPwm: real)

  datatype Result = Pwm(pwm: real) | Raised

  // ----- One sensor -----

  datatype Seen = Skipped | NoBoard | Missing | Present(sensor: Sensor)

  /** A checked sensor is skipped unless this answer and the last one are non-zero. */
  function Look(v: Variable, slot: Slot, input: Input): Seen {
    if v.Key() in input.valid && (input.valid[v.Key()] == 0 || slot.validPre == 0) then Skipped
    else if v.board !in input.sensors then NoBoard
    else if v.sname in input.sensors[v.board] then Present(input.sensors[v.board][v.sname])
    else Missing
  }

  function SlotAfter(v: Variable, slot: Slot, input: Input): Slot {
    var cur := if v.Key() in input.valid then input.valid[v.Key()] else slot.validCur;
    match Look(v, slot, input)
    case Skipped => Slot(slot.asserted, 0, cur, cur)
    case NoBoard => slot.(validCur := cur)
    case Present(_) => Slot(false, 0, cur, cur)
    case Missing =>
      Slot(slot.asserted || slot.retry >= 2, if slot.retry < 2 then slot.retry + 1 else slot.retry, cur, cur)
  }

  predicate NvmeSlotAt(name: string, i: int) {
    && 1 <= i && i + 11 < |name|
    && name[i..i + 2] == "_C" && name[i + 2] in "234" && name[i + 3] == '_' && name[i + 4] in "0123"
    && name[i + 5..i + 11] == "_NVME_"
  }

  predicate HasNvmeAt(name: string, i: int) {
    0 <= i && i + 4 <= |name| && name[i..i + 4] == "nvme"
  }

  /** Drives that are only counted when they fail, unless they sit in one of the
      slots that count as sensors of their own. */
  predicate SsdLike(v: Variable, sensor: Sensor) {
    && !(exists i: int :: 1 <= i < |sensor.name| && NvmeSlotAt(sensor.name, i))
    && ("SSD" <= sensor.name || exists i: int :: 0 <= i < |v.sname| && HasNvmeAt(v.sname, i))
  }

  predicate Critical(seen: Seen) {
    seen.Present? && seen.sensor.status == UpperCritical
  }

  predicate Failed(c: Config, seen: Seen, validCur: int) {
    c.sensorFail && seen.Present? && seen.sensor.status == NotAvailable && validCur != -1
  }

  // ----- All sensors -----

  datatype Scan = Scan(ctx: Context, outmin: real, failedSsd: nat)

  function Max2(a: real, b: real): real {
    if b > a then b else a
  }

  function Min2(a: real, b: real): real {
    if b < a then b else a
  }

  function ScanStep(c: Config, v: Variable, slot: Slot, input: Input, s: Scan): Scan {
    match Look(v, slot, input)
    case Present(sensor) =>
      var s1 := s.(ctx := s.ctx[v.Key() := sensor.value]);
      if Critical(Present(sensor)) then s1.(outmin := Max2(s.outmin, c.transitional))
      else if !Failed(c, Present(sensor), SlotAfter(v, slot, input).validCur) then s1
      else if SsdLike(v, sensor) then s1.(failedSsd := s.failedSsd + 1)
      else s1.(outmin := Max2(s.outmin, c.boost))
    case Missing => s.(ctx := s.ctx[v.Key() := NoneV])
    case _ => s
  }

  /** The scan over the first n sensors. */
  function ScanFirst(c: Config, vars: seq<Variable>, slots: seq<Slot>, input: Input, n: nat): Scan
    requires n <= |vars| == |slots|
  {
    if n == 0 then Scan(map["dt" := NumV(input.dt)], 0.0, 0)
    else ScanStep(c, vars[n - 1], slots[n - 1], input, ScanFirst(c, vars, slots, input, n - 1))
  }

  /** How many sensors are passed: all, or those before the first of an unknown board. */
  function Passed(vars: seq<Variable>, slots: seq<Slot>, input: Input): (n: nat)
    requires |vars| == |slots|
    ensures n <= |vars| && (n < |vars| ==> Look(vars[n], slots[n], input) == NoBoard)
    ensures forall k :: 0 <= k < n ==> Look(vars[k], slots[k], input) != NoBoard
  {
    if vars == [] || Look(vars[0], slots[0], input) == NoBoard then 0
    else
      var n := Passed(vars[1..], slots[1..], input);
      assert forall k :: 0 < k < |vars| ==> vars[k] == vars[1..][k - 1] && slots[k] == slots[1..][k - 1];
      1 + n
  }

  function SlotsAfter(vars: seq<Variable>, slots: seq<Slot>, input: Input, n: nat): seq<Slot>
    requires |vars| == |slots|
  {
    seq(|slots|, k requires 0 <= k < |slots| => if k < n then SlotAfter(vars[k], slots[k], input) else slots[k])
  }

  // ----- From the expression's value to the speed -----

  function Clamp(v: real): real {
    if v <= 0.0 then 0.0 else if v >= 100.0 then 100.0 else v
  }

  function OffsetFor(offsets: seq<Offset>, failed: nat): Option<real> {
    if offsets == [] then None
    else if failed <= offsets[0].upTo then Some(offsets[0].extra)
    else OffsetFor(offsets[1..], failed)
  }

  predicate NoSane(exprout: Value, scan: Scan) {
    Falsy(exprout) && scan.outmin == 0.0
  }

  predicate CountsSsd(c: Config, scan: Scan) {
    c.ssdFail && scan.failedSsd != 0 && c.offsets.Some?
  }

  function Finish(c: Config, exprout: Value, scan: Scan): Result {
    var base := if NoSane(exprout, scan) then NumV(c.transitional) else exprout;
    if CountsSsd(c, scan) && OffsetFor(c.offsets.value, scan.failedSsd).Some? then
      if base.NumV? then Conclude(NumV(base.r + OffsetFor(c.offsets.value, scan.failedSsd).value), scan.outmin)
      else Raised
    else if CountsSsd(c, scan) && c.offsets.value != [] then Conclude(base, Max2(scan.outmin, c.boost))
    else Conclude(base, scan.outmin)
  }

  function Conclude(v: Value, outmin: real): Result {
    if Falsy(v) then Pwm(Clamp(Max2(0.0, outmin)))
    else if v.NumV? then Pwm(Clamp(Max2(v.r, outmin)))
    else Raised
  }

  /** One cycle of a zone up to, but without, the ramp. */
  function RunZone(c: Config, vars: seq<Variable>, s: ZoneState, input: Input): (Result, ZoneState)
    requires |vars| == |s.slots|
  {
    var n := Passed(vars, s.slots, input);
    if n < |vars| then (Raised, s.(slots := SlotsAfter(vars, s.slots, input, n + 1)))
    else
      var scan := ScanFirst(c, vars, s.slots, input, n);
      var s1 := s.(slots := SlotsAfter(vars, s.slots, input, n));
      var (out, expr) := Eval(s.expr, scan.ctx);
      if out == Raise then (Raised, s1.(expr := expr))
      else (Finish(c, out.v, scan), s1.(expr := expr, noSane := NoSane(out.v, scan)))
  }

  class Zone {
    const c: Config
    const vars: seq<Variable>
    var expr: Node
    var slots: seq<Slot>
    var noSane: bool
    var lastPwm: real

    predicate Valid()
      reads this
    {
      |slots| == |vars|
    }

    function State(): ZoneState
      reads this
    {
      ZoneState(expr, slots, noSane, lastPwm)
    }

    constructor (c: Config, vars: seq<Variable>, expr: Node)
      ensures this.c == c && this.vars == vars && Valid()
      ensures State() == ZoneState(expr, seq(|vars|, _ => Slot(false, 0, 0, 0)), false, c.transitional)
    {
      this.c, this.vars, this.expr := c, vars, expr;
      slots := seq(|vars|, _ => Slot(false, 0, 0, 0));
      noSane, lastPwm := false, c.transitional;
    }

    method Run(input: Input) returns (res: Result)
      requires Valid()
      modifies this
      ensures Valid() && (res, State()) == RunZone(c, vars, old(State()), input)
    {
      var raised, scan := ScanSensors(input);
      if raised {
        return Raised;
      }
      var out;
      out, expr := Evaluate(scan.ctx);
      if out == Raise {
        return Raised;
      }
      res := Settle(out.v, scan);
    }

    /** The loop over the sensors; it stops where a board is unknown. */
    method ScanSensors(input: Input) returns (raised: bool, scan: Scan)
      requires Valid()
      modifies this`slots
      ensures Valid()
      ensures var n := Passed(vars, old(slots), input);
              && raised == (n < |vars|)
              && slots == SlotsAfter(vars, old(slots), input, if raised then n + 1 else n)
              && scan == ScanFirst(c, vars, old(slots), input, n)
    {
      raised, scan := false, Scan(map["dt" := NumV(input.dt)], 0.0, 0);
      ghost var before := slots;
      var index := 0;
      while index < |vars| && !raised
        invariant 0 <= index <= Passed(vars, before, input) && |slots| == |vars|
        invariant raised ==> index == Passed(vars, before, input) < |vars|
        invariant slots == SlotsAfter(vars, before, input, if raised then index + 1 else index)
        invariant scan == ScanFirst(c, vars, before, input, index)
        decreases |vars| - index, !raised
      {
        assert slots[index] == before[index];
        var slot;
        raised, slot, scan := Visit(vars[index], slots[index], input, scan);
        slots := slots[index := slot];
        if !raised {
          index := index + 1;
        }
      }
    }

    /** One sensor: what is remembered of it and what it adds to the scan. */
    method Visit(v: Variable, before: Slot, input: Input, scan: Scan) returns (raised: bool, slot: Slot, after: Scan)
      ensures raised == Look(v, before, input).NoBoard?
      ensures slot == SlotAfter(v, before, input) && after == ScanStep(c, v, before, input, scan)
    {
      slot, after := before, scan;
      if v.Key() in input.valid {
        slot := slot.(validCur := input.valid[v.Key()]);
        if slot.validCur == 0 || slot.validPre == 0 {
          return false, slot.(retry := 0, validPre := slot.validCur), scan;
        }
      }
      if v.board !in input.sensors {
        return true, slot, scan;
      }
      if v.sname in input.sensors[v.board] {
        slot := slot.(retry := 0);
        if slot.asserted {
          slot := slot.(asserted := false);
        }
        var sensor := input.sensors[v.board][v.sname];
        after := after.(ctx := after.ctx[v.Key() := sensor.value]);
        if sensor.status == UpperCritical {
          after := after.(outmin := Max2(after.outmin, c.transitional));
        } else if c.sensorFail && sensor.status == NotAvailable && slot.validCur != -1 {
          if SsdLike(v, sensor) {
            after := after.(failedSsd := after.failedSsd + 1);
          } else {
            after := after.(outmin := Max2(after.outmin, c.boost));
          }
        }
      } else {
        if !slot.asserted && slot.retry >= 2 {
          slot := slot.(asserted := true);
        }
        if slot.retry < 2 {
          slot := slot.(retry := slot.retry + 1);
        }
        after := after.(ctx := after.ctx[v.Key() := NoneV]);
      }
      return false, slot.(validPre := slot.validCur), after;
    }

    method Evaluate(ctx: Context) returns (out: Outcome, after: Node)
      ensures (out, after) == Eval(expr, ctx)
    {
      var pair := Eval(expr, ctx);
      return pair.0, pair.1;
    }

    /** From the expression's value to the speed. */
    method Settle(value: Value, scan: Scan) returns (res: Result)
      modifies this`noSane
      ensures res == Finish(c, value, scan) && noSane == NoSane(value, scan)
    {
      var exprout, outmin, failedSsd := value, scan.outmin, scan.failedSsd;
      if Falsy(exprout) && outmin == 0.0 {
        exprout := NumV(c.transitional);
        noSane := true;
      } else {
        noSane := false;
      }
      if c.ssdFail && failedSsd != 0 && c.offsets.Some? {
        var offsets := c.offsets.value;
        var i := 0;
        while i < |offsets|
          invariant 0 <= i <= |offsets| && exprout == (if noSane then NumV(c.transitional) else value)
          invariant i < |offsets| ==> OffsetFor(offsets, failedSsd) == OffsetFor(offsets[i..], failedSsd)
          invariant i < |offsets| ==> outmin == scan.outmin
          invariant i == |offsets| > 0 ==> OffsetFor(offsets, failedSsd) == None && outmin == Max2(scan.outmin, c.boost)
          invariant |offsets| == 0 ==> outmin == scan.outmin
        {
          if failedSsd <= offsets[i].upTo {
            if !exprout.NumV? {
              return Raised;
            }
            exprout := NumV(exprout.r + offsets[i].extra);
            break;
          } else if i + 1 == |offsets| {
            outmin := Max2(outmin, c.boost);
          }
          i := i + 1;
        }
      }
      if Falsy(exprout) {
        exprout := NumV(0.0);
      }
      if !exprout.NumV? {
        return Raised;
      }
      if exprout.r < outmin {
        exprout := NumV(outmin);
      }
      return Pwm(Clamp(exprout.r));
    }
  }

  // ----- What a reading means -----

  /** How one sensor is seen, from the readings and the validity answers. */
  lemma LookIs(v: Variable, slot: Slot, input: Input)
    ensures var key := v.board + ":" + v.sname;
            var skipped := key in input.valid && (input.valid[key] == 0 || slot.validPre == 0);
            var here := v.board in input.sensors && v.sname in input.sensors[v.board];
            && (Look(v, slot, input) == Skipped <==> skipped)
            && (Look(v, slot, input) == NoBoard <==> !skipped && v.board !in input.sensors)
            && (!skipped && here ==> Look(v, slot, input) == Present(input.sensors[v.board][v.sname]))
            && (Look(v, slot, input) == Missing <==> !skipped && v.board in input.sensors && !here)
  {
  }

  /** The name of a drive in one of the slots that count as sensors of their own:
      something, `_C`, 2 to 4, `_`, 0 to 3, `_NVME_` and something. */
  ghost predicate SlotName(name: string) {
    exists head, card, slot, tail :: InSlot(name, head, card, slot, tail)
  }

  ghost predicate InSlot(name: string, head: string, card: char, slot: char, tail: string) {
    && name == head + SlotMark(card, slot) + tail
    && head != "" && tail != "" && '2' <= card <= '4' && '0' <= slot <= '3'
  }

  function SlotMark(card: char, slot: char): string {
    "_C" + [card] + "_" + [slot] + "_NVME_"
  }

  lemma SlotNameIf(name: string, i: int)
    requires NvmeSlotAt(name, i)
    ensures SlotName(name)
  {
    assert name == name[..i] + name[i..i + 11] + name[i + 11..];
    assert InSlot(name, name[..i], name[i + 2], name[i + 4], name[i + 11..]);
  }

  lemma SlotNameAt(name: string, head: string, card: char, slot: char, tail: string)
    requires InSlot(name, head, card, slot, tail)
    ensures NvmeSlotAt(name, |head|)
  {
    var i, mark := |head|, SlotMark(card, slot);
    assert name[i..i + 11] == mark;
    assert name[i..i + 2] == mark[..2] && name[i + 2] == mark[2] && name[i + 3] == mark[3] && name[i + 4] == mark[4];
    assert name[i + 5..i + 11] == mark[5..];
  }

  lemma SlotNameIff(name: string)
    ensures SlotName(name) <==> exists i: int :: 1 <= i < |name| && NvmeSlotAt(name, i)
  {
    if i: int :| 1 <= i < |name| && NvmeSlotAt(name, i) {
      SlotNameIf(name, i);
    }
    if SlotName(name) {
      var head, card, slot, tail :| InSlot(name, head, card, slot, tail);
      SlotNameAt(name, head, card, slot, tail);
    }
  }

  ghost predicate Holds(s: string, part: string) {
    exists head, tail :: Around(s, head, part, tail)
  }

  ghost predicate Around(s: string, head: string, part: string, tail: string) {
    s == head + part + tail
  }

  /** Drives that are only counted: not in such a slot, and named SSD or nvme. */
  lemma SsdLikeIff(v: Variable, sensor: Sensor)
    ensures SsdLike(v, sensor) <==>
            !SlotName(sensor.name) && ((exists tail :: sensor.name == "SSD" + tail) || Holds(v.sname, "nvme"))
  {
    SlotNameIff(sensor.name);
    if "SSD" <= sensor.name {
      assert sensor.name == "SSD" + sensor.name[3..];
    }
    if i: int :| 0 <= i < |v.sname| && HasNvmeAt(v.sname, i) {
      assert Around(v.sname, v.sname[..i], "nvme", v.sname[i + 4..]);
    }
    if Holds(v.sname, "nvme") {
      var head, tail :| Around(v.sname, head, "nvme", tail);
      assert v.sname[|head|..|head| + 4] == "nvme";
      assert HasNvmeAt(v.sname, |head|);
    }
  }

  /** Seen, not available, and not answered for by -1. */
  ghost predicate Unavailable(c: Config, v: Variable, slot: Slot, input: Input, sensor: Sensor) {
    && c.sensorFail && Look(v, slot, input) == Present(sensor) && sensor.status == NotAvailable
    && (if v.Key() in input.valid then input.valid[v.Key()] else slot.validCur) != -1
  }

  /** So what a reading asks for: the transitional speed if critical, the boost speed if
      unavailable and no drive that is only counted. */
  lemma AskIs(c: Config, v: Variable, slot: Slot, input: Input, sensor: Sensor)
    requires Look(v, slot, input) == Present(sensor)
    ensures sensor.status == UpperCritical ==> Ask(c, v, slot, input) == Some(c.transitional)
    ensures Unavailable(c, v, slot, input, sensor) ==>
              (SsdDown(c, v, slot, input) <==> SsdLike(v, sensor)) &&
              Ask(c, v, slot, input) == if SsdLike(v, sensor) then None else Some(c.boost)
    ensures sensor.status != UpperCritical && !Unavailable(c, v, slot, input, sensor) ==>
              Ask(c, v, slot, input) == None && !SsdDown(c, v, slot, input)
  {
  }

  lemma NothingAskedUnseen(c: Config, v: Variable, slot: Slot, input: Input)
    requires !Look(v, slot, input).Present?
    ensures Ask(c, v, slot, input) == None && !SsdDown(c, v, slot, input)
  {
  }

  // ----- What the scan finds -----

  /** The least speed one sensor asks for. */
  function Ask(c: Config, v: Variable, slot: Slot, input: Input): Option<real> {
    var seen := Look(v, slot, input);
    if Critical(seen) then Some(c.transitional)
    else if SensorDown(c, v, slot, input) then Some(c.boost)
    else None
  }

  /** Considered, without a value, and not one of the drives that are only counted. */
  predicate SensorDown(c: Config, v: Variable, slot: Slot, input: Input) {
    var seen := Look(v, slot, input);
    Failed(c, seen, SlotAfter(v, slot, input).validCur) && !SsdLike(v, seen.sensor)
  }

  predicate SsdDown(c: Config, v: Variable, slot: Slot, input: Input) {
    var seen := Look(v, slot, input);
    Failed(c, seen, SlotAfter(v, slot, input).validCur) && SsdLike(v, seen.sensor)
  }

  /** One step by its three effects. */
  lemma ScanStepParts(c: Config, v: Variable, slot: Slot, input: Input, s: Scan)
    ensures var (after, ask) := (ScanStep(c, v, slot, input, s), Ask(c, v, slot, input));
            && after.outmin == (if ask.Some? then Max2(s.outmin, ask.value) else s.outmin)
            && after.failedSsd == s.failedSsd + (if SsdDown(c, v, slot, input) then 1 else 0)
            && (after.ctx == s.ctx[v.Key() := Visible(v, slot, input)] ||
                (after.ctx == s.ctx && Visible(v, slot, input) == NoneV))
  {
  }

  /** The least speed is the largest one asked for, or 0. */
  lemma {:induction false} OutminIsLargestAsk(c: Config, vars: seq<Variable>, slots: seq<Slot>, input: Input, n: nat)
    requires n <= |vars| == |slots|
    ensures var outmin := ScanFirst(c, vars, slots, input, n).outmin;
            && outmin >= 0.0
            && (forall k :: 0 <= k < n && Ask(c, vars[k], slots[k], input).Some? ==>
                  outmin >= Ask(c, vars[k], slots[k], input).value)
            && (outmin == 0.0 || exists k :: 0 <= k < n && Ask(c, vars[k], slots[k], input) == Some(outmin))
  {
    if n > 0 {
      OutminIsLargestAsk(c, vars, slots, input, n - 1);
      ScanStepParts(c, vars[n - 1], slots[n - 1], input, ScanFirst(c, vars, slots, input, n - 1));
      var before := ScanFirst(c, vars, slots, input, n - 1).outmin;
      var outmin := ScanFirst(c, vars, slots, input, n).outmin;
      if outmin == before && before != 0.0 {
        var k :| 0 <= k < n - 1 && Ask(c, vars[k], slots[k], input) == Some(before);
        assert Ask(c, vars[k], slots[k], input) == Some(outmin);
      }
    }
  }

  function DownSsds(c: Config, vars: seq<Variable>, slots: seq<Slot>, input: Input, n: nat): set<int>
    requires n <= |vars| == |slots|
  {
    set k | 0 <= k < n && SsdDown(c, vars[k], slots[k], input)
  }

  lemma DownSsdsStep(c: Config, vars: seq<Variable>, slots: seq<Slot>, input: Input, n: nat)
    requires 0 < n <= |vars| == |slots|
    ensures |DownSsds(c, vars, slots, input, n)| ==
            |DownSsds(c, vars, slots, input, n - 1)| + (if SsdDown(c, vars[n - 1], slots[n - 1], input) then 1 else 0)
  {
    var before := DownSsds(c, vars, slots, input, n - 1);
    if SsdDown(c, vars[n - 1], slots[n - 1], input) {
      assert DownSsds(c, vars, slots, input, n) == before + {n - 1};
    } else {
      assert DownSsds(c, vars, slots, input, n) == before;
    }
  }

  lemma {:induction false} FailedSsdIsCount(c: Config, vars: seq<Variable>, slots: seq<Slot>, input: Input, n: nat)
    requires n <= |vars| == |slots|
    ensures ScanFirst(c, vars, slots, input, n).failedSsd == |DownSsds(c, vars, slots, input, n)|
  {
    if n > 0 {
      FailedSsdIsCount(c, vars, slots, input, n - 1);
      ScanStepParts(c, vars[n - 1], slots[n - 1], input, ScanFirst(c, vars, slots, input, n - 1));
      DownSsdsStep(c, vars, slots, input, n);
    }
  }

  /** The value of a sensor that is considered and there, else None. */
  function Visible(v: Variable, slot: Slot, input: Input): Value {
    var seen := Look(v, slot, input);
    if seen.Present? then seen.sensor.value else NoneV
  }

  predicate DistinctKeys(vars: seq<Variable>) {
    forall i, j :: 0 <= i < j < |vars| ==> vars[i].Key() != vars[j].Key()
  }

  lemma KeyIsNotDt(v: Variable)
    ensures v.Key() != "dt"
  {
    assert v.Key()[|v.board|] == ':';
  }

  /** The context shows each sensor's visible value under its name. */
  lemma {:induction false} ContextShowsVisible(c: Config, vars: seq<Variable>, slots: seq<Slot>, input: Input, n: nat)
    requires n <= |vars| == |slots| && DistinctKeys(vars)
    ensures var ctx := ScanFirst(c, vars, slots, input, n).ctx;
            && "dt" in ctx && ctx["dt"] == NumV(input.dt)
            && (forall k :: 0 <= k < n ==> Get(ctx, vars[k].Key()) == Visible(vars[k], slots[k], input))
            && (forall x :: x in ctx && x != "dt" ==> exists k :: 0 <= k < n && x == vars[k].Key())
  {
    if n > 0 {
      ContextShowsVisible(c, vars, slots, input, n - 1);
      KeyIsNotDt(vars[n - 1]);
      var before := ScanFirst(c, vars, slots, input, n - 1);
      ScanStepParts(c, vars[n - 1], slots[n - 1], input, before);
      var key := vars[n - 1].Key();
      assert key !in before.ctx;
      var ctx := ScanFirst(c, vars, slots, input, n).ctx;
      assert forall x :: x in ctx ==> x in before.ctx || x == vars[n - 1].Key();
    }
  }

  /** So the expression sees the sensors only through their visible values: any
      context showing those, and the same dt, gives the same value. */
  lemma ZoneValueIsOfReadings(e: Expr, profiles: map<string, Controller>, c: Config, vars: seq<Variable>, s: ZoneState,
                              input: Input, other: Context)
    requires Compile(e, {}, profiles).Built? && Free(e) !! ClosedLast(e) && ToExpr(s.expr) == e
    requires |vars| == |s.slots| && DistinctKeys(vars)
    requires Compile(e, {}, profiles).extVars == set v | v in vars :: v.Key()
    requires Get(other, "dt") == NumV(input.dt)
    requires forall k :: 0 <= k < |vars| ==> Get(other, vars[k].Key()) == Visible(vars[k], s.slots[k], input)
    ensures Eval(s.expr, ScanFirst(c, vars, s.slots, input, |vars|).ctx) == Eval(s.expr, other)
  {
    var ctx := ScanFirst(c, vars, s.slots, input, |vars|).ctx;
    ContextShowsVisible(c, vars, s.slots, input, |vars|);
    forall x | x in Compile(e, {}, profiles).extVars ensures Get(ctx, x) == Get(other, x) {
      var v :| v in vars && v.Key() == x;
      var k :| 0 <= k < |vars| && vars[k] == v;
      assert Get(other, vars[k].Key()) == Visible(vars[k], s.slots[k], input);
    }
    CollectedNamesDecide(e, profiles, s.expr, ctx, other);
  }

  /** The names come as a set, in no fixed order; two sensors can be visited
      either way round. */
  lemma ScanStepsCommute(c: Config, v: Variable, w: Variable, sv: Slot, sw: Slot, input: Input, s: Scan)
    requires v.Key() != w.Key()
    ensures ScanStep(c, w, sw, input, ScanStep(c, v, sv, input, s)) ==
            ScanStep(c, v, sv, input, ScanStep(c, w, sw, input, s))
  {
    var a, b := Visible(v, sv, input), Visible(w, sw, input);
    assert s.ctx[v.Key() := a][w.Key() := b] == s.ctx[w.Key() := b][v.Key() := a];
  }

  // ----- The result -----

  /** Every result is a percentage. */
  lemma ResultIsPercentage(c: Config, vars: seq<Variable>, s: ZoneState, input: Input)
    requires |vars| == |s.slots| && RunZone(c, vars, s, input).0.Pwm?
    ensures 0.0 <= RunZone(c, vars, s, input).0.pwm <= 100.0
  {
  }

  /** The least speed reaches the result. */
  lemma ResultKeepsOutmin(c: Config, exprout: Value, scan: Scan)
    requires Finish(c, exprout, scan).Pwm?
    ensures Finish(c, exprout, scan).pwm >= Min2(100.0, scan.outmin)
    ensures CountsSsd(c, scan) && c.offsets.value != [] && OffsetFor(c.offsets.value, scan.failedSsd).None? ==>
              Finish(c, exprout, scan).pwm >= Min2(100.0, c.boost)
  {
  }

  /** The first offset that covers the number of failed drives. */
  predicate CoversDrives(offsets: seq<Offset>, k: nat, drives: nat) {
    k < |offsets| && drives <= offsets[k].upTo && forall j :: 0 <= j < k ==> drives > offsets[j].upTo
  }

  lemma {:induction false} OffsetIs(offsets: seq<Offset>, drives: nat, k: nat)
    requires CoversDrives(offsets, k, drives)
    ensures OffsetFor(offsets, drives) == Some(offsets[k].extra)
  {
    if k > 0 {
      assert drives > offsets[0].upTo;
      assert forall j :: 0 <= j < k - 1 ==> offsets[1..][j] == offsets[j + 1];
      OffsetIs(offsets[1..], drives, k - 1);
    }
  }

  /** The result in numbers, for a value that is a number, or missing (`value` is 0 then):
      the transitional speed if that is 0 and nothing is asked for; at least what is
      asked for, and the boost speed if no offset covers the failed drives; within 0
      to 100. */
  lemma FinishIs(c: Config, v: Value, value: real, scan: Scan)
    requires v == NumV(value) || (v == NoneV && value == 0.0)
    ensures var base := if value == 0.0 && scan.outmin == 0.0 then c.transitional else value;
            var counted := c.ssdFail && scan.failedSsd > 0 && c.offsets.Some?;
            && (!counted || c.offsets.value == [] ==> Reaches(Finish(c, v, scan), base, scan.outmin))
            && (counted && c.offsets.value != [] && (forall o :: o in c.offsets.value ==> scan.failedSsd > o.upTo) ==>
                  Reaches(Finish(c, v, scan), base, if c.boost > scan.outmin then c.boost else scan.outmin))
  {
    if c.offsets.Some? {
      NoOffset(c.offsets.value, scan.failedSsd);
    }
  }

  /** The first offset that covers the failed drives is added to that. */
  lemma FinishAdds(c: Config, v: Value, value: real, scan: Scan, k: nat)
    requires v == NumV(value) || (v == NoneV && value == 0.0 && scan.outmin == 0.0)
    requires c.ssdFail && scan.failedSsd > 0 && c.offsets.Some? && CoversDrives(c.offsets.value, k, scan.failedSsd)
    ensures var base := if value == 0.0 && scan.outmin == 0.0 then c.transitional else value;
            Reaches(Finish(c, v, scan), base + c.offsets.value[k].extra, scan.outmin)
  {
    OffsetIs(c.offsets.value, scan.failedSsd, k);
  }

  /** The larger of the two, within 0 to 100. */
  predicate Reaches(res: Result, value: real, least: real) {
    var larger := if value < least then least else value;
    res == Pwm(if larger < 0.0 then 0.0 else if larger > 100.0 then 100.0 else larger)
  }

  /** Fail-safe: a critical sensor forces at least the transitional speed, a failed
      one at least the boost speed, up to 100; so does a number of failed drives
      that no offset covers. */
  lemma FailSafe(c: Config, vars: seq<Variable>, s: ZoneState, input: Input)
    requires |vars| == |s.slots| && RunZone(c, vars, s, input).0.Pwm?
    ensures var pwm := RunZone(c, vars, s, input).0.pwm;
            forall k :: 0 <= k < |vars| ==>
              && (Critical(Look(vars[k], s.slots[k], input)) ==> pwm >= Min2(100.0, c.transitional))
              && (SensorDown(c, vars[k], s.slots[k], input) ==> pwm >= Min2(100.0, c.boost))
    ensures var drives := |DownSsds(c, vars, s.slots, input, |vars|)|;
            c.ssdFail && drives != 0 && c.offsets.Some? && c.offsets.value != [] &&
            (forall o :: o in c.offsets.value ==> drives > o.upTo) ==>
              RunZone(c, vars, s, input).0.pwm >= Min2(100.0, c.boost)
  {
    var n := |vars|;
    var scan := ScanFirst(c, vars, s.slots, input, n);
    OutminIsLargestAsk(c, vars, s.slots, input, n);
    FailedSsdIsCount(c, vars, s.slots, input, n);
    var value := Eval(s.expr, scan.ctx).0.v;
    ResultKeepsOutmin(c, value, scan);
    if c.offsets.Some? && forall o :: o in c.offsets.value ==> scan.failedSsd > o.upTo {
      NoOffset(c.offsets.value, scan.failedSsd);
    }
    forall k | 0 <= k < n
      ensures Critical(Look(vars[k], s.slots[k], input)) ==> Finish(c, value, scan).pwm >= Min2(100.0, c.transitional)
      ensures SensorDown(c, vars[k], s.slots[k], input) ==> Finish(c, value, scan).pwm >= Min2(100.0, c.boost)
    {
      assert Ask(c, vars[k], s.slots[k], input).Some? ==> scan.outmin >= Ask(c, vars[k], s.slots[k], input).value;
    }
  }

  lemma {:induction false} NoOffset(offsets: seq<Offset>, failed: nat)
    ensures OffsetFor(offsets, failed).None? <==> forall o :: o in offsets ==> failed > o.upTo
  {
    if offsets != [] {
      NoOffset(offsets[1..], failed);
      assert offsets == [offsets[0]] + offsets[1..];
    }
  }

  /** With no critical or failed sensor the result is the expression's value
      clamped, or the transitional speed when that is missing or zero. */
  lemma HealthyResult(c: Config, vars: seq<Variable>, s: ZoneState, input: Input)
    requires |vars| == |s.slots| && forall k :: 0 <= k < |vars| ==> NoAlarm(c, vars[k], s.slots[k], input)
    ensures var (res, s1) := RunZone(c, vars, s, input);
            res.Pwm? ==>
              var value := Eval(s.expr, ScanFirst(c, vars, s.slots, input, |vars|).ctx).0.v;
              && (s1.noSane <==> Falsy(value))
              && (Falsy(value) ==> res.pwm == Clamp(c.transitional))
              && (!Falsy(value) ==> value.NumV? && res.pwm == Clamp(value.r))
  {
    OutminIsLargestAsk(c, vars, s.slots, input, |vars|);
    FailedSsdIsCount(c, vars, s.slots, input, |vars|);
    assert DownSsds(c, vars, s.slots, input, |vars|) == {};
  }

  predicate NoAlarm(c: Config, v: Variable, slot: Slot, input: Input) {
    !Critical(Look(v, slot, input)) && !SensorDown(c, v, slot, input) && !SsdDown(c, v, slot, input)
  }

  /** Some considered sensor asks for a speed above 0. */
  ghost predicate SpeedAsked(c: Config, vars: seq<Variable>, slots: seq<Slot>, input: Input)
    requires |vars| == |slots|
  {
    exists k :: 0 <= k < |vars| &&
      match Ask(c, vars[k], slots[k], input) case None => false case Some(speed) => speed > 0.0
  }

  /** What the expression gives for the visible values (ContextShowsVisible). */
  function ValueOf(c: Config, vars: seq<Variable>, s: ZoneState, input: Input): Outcome
    requires |vars| == |s.slots|
  {
    Eval(s.expr, ScanFirst(c, vars, s.slots, input, |vars|).ctx).0
  }

  /** A cycle raises exactly if a considered sensor's board is unknown, the expression
      raises, its value is a non-empty list, or its value is nothing or an empty
      list while a speed is asked for and failed drives are to add to it. */
  lemma RaisedIff(c: Config, vars: seq<Variable>, s: ZoneState, input: Input)
    requires |vars| == |s.slots|
    ensures var out := ValueOf(c, vars, s, input);
            var drives := |DownSsds(c, vars, s.slots, input, |vars|)|;
            RunZone(c, vars, s, input).0.Raised? <==>
              || (exists k :: 0 <= k < |vars| && Look(vars[k], s.slots[k], input).NoBoard?)
              || out == Raise
              || (out.v.ListV? && out.v.vs != [])
              || (!out.v.NumV? && SpeedAsked(c, vars, s.slots, input) && c.ssdFail && drives != 0 &&
                  c.offsets.Some? && exists o :: o in c.offsets.value && drives <= o.upTo)
  {
    var n := Passed(vars, s.slots, input);
    if n < |vars| {
      assert Look(vars[n], s.slots[n], input).NoBoard?;
    } else {
      FailedSsdIsCount(c, vars, s.slots, input, |vars|);
      NothingAskedIff(c, vars, s.slots, input);
      FinishRaisesIff(c, ValueOf(c, vars, s, input), ScanFirst(c, vars, s.slots, input, |vars|));
    }
  }

  lemma NothingAskedIff(c: Config, vars: seq<Variable>, slots: seq<Slot>, input: Input)
    requires |vars| == |slots|
    ensures ScanFirst(c, vars, slots, input, |vars|).outmin == 0.0 <==> !SpeedAsked(c, vars, slots, input)
  {
    OutminIsLargestAsk(c, vars, slots, input, |vars|);
    var outmin := ScanFirst(c, vars, slots, input, |vars|).outmin;
    if outmin != 0.0 {
      var k :| 0 <= k < |vars| && Ask(c, vars[k], slots[k], input) == Some(outmin);
      assert Ask(c, vars[k], slots[k], input).value > 0.0;
    }
  }

  lemma FinishRaisesIff(c: Config, out: Outcome, scan: Scan)
    ensures out.Ret? ==>
              (Finish(c, out.v, scan).Raised? <==>
                || (out.v.ListV? && out.v.vs != [])
                || (!out.v.NumV? && scan.outmin != 0.0 && CountsSsd(c, scan) &&
                    exists o :: o in c.offsets.value && scan.failedSsd <= o.upTo))
  {
    if CountsSsd(c, scan) {
      NoOffset(c.offsets.value, scan.failedSsd);
    }
  }

  // Such an input: the expression takes the larger of a sensor that is missing and a
  // drive that failed, another sensor it names is critical, and the configuration
  // adds 25 for up to 14 failed drives.

  const DRIVE_CONFIG := Config(50.0, 80.0, true, true, Some([Offset(14, 25.0)]))

  const INLET := Variable("nic", "INLET")
  const DRIVE := Variable("nic", "nvme0")
  const OUTLET := Variable("nic", "OUTLET")
  const DRIVE_VARS: seq<Variable> := [INLET, DRIVE, OUTLET]

  function DriveState(): ZoneState {
    var larger := ApplyN("max", MaxOf, ListN([IdentN(INLET.Key()), IdentN(DRIVE.Key())]));
    var unseen := Slot(false, 0, 0, 0);
    ZoneState(BindN("unused", IdentN(OUTLET.Key()), larger), [unseen, unseen, unseen], false, 50.0)
  }

  function DriveInput(): Input {
    var readings := map["nvme0" := Sensor("nvme0", NoneV, NotAvailable),
                        "OUTLET" := Sensor("OUTLET", NumV(90.0), UpperCritical)];
    Input(map["nic" := readings], map[], 1.0)
  }

  lemma FailedDriveWithoutValueRaises()
    ensures RunZone(DRIVE_CONFIG, DRIVE_VARS, DriveState(), DriveInput()).0.Raised?
  {
    var c, vars, s, input := DRIVE_CONFIG, DRIVE_VARS, DriveState(), DriveInput();
    DriveIsDown();
    DownSsdsStep(c, vars, s.slots, input, 3);
    DownSsdsStep(c, vars, s.slots, input, 2);
    DownSsdsStep(c, vars, s.slots, input, 1);
    assert 1 in DownSsds(c, vars, s.slots, input, 3) && Offset(14, 25.0) in c.offsets.value;
    assert Ask(c, vars[2], s.slots[2], input) == Some(50.0);
    DriveValueIsNone();
    RaisedIff(c, vars, s, input);
  }

  lemma DriveIsDown()
    ensures SsdDown(DRIVE_CONFIG, DRIVE, Slot(false, 0, 0, 0), DriveInput())
    ensures DownSsds(DRIVE_CONFIG, DRIVE_VARS, DriveState().slots, DriveInput(), 0) == {}
  {
    assert HasNvmeAt("nvme0", 0);
    assert forall i: int :: 1 <= i < 5 ==> !NvmeSlotAt("nvme0", i);
  }

  lemma DriveValueIsNone()
    ensures ValueOf(DRIVE_CONFIG, DRIVE_VARS, DriveState(), DriveInput()) == Ret(NoneV)
  {
    var c, vars, slots, input := DRIVE_CONFIG, DRIVE_VARS, DriveState().slots, DriveInput();
    assert INLET.Key()[4] == 'I' && DRIVE.Key()[4] == 'n' && OUTLET.Key()[4] == 'O';
    ContextShowsVisible(c, vars, slots, input, 3);
    var ctx := ScanFirst(c, vars, slots, input, 3).ctx;
    assert Get(ctx, vars[0].Key()) == Visible(vars[0], slots[0], input) == NoneV;
    assert Get(ctx, vars[1].Key()) == Visible(vars[1], slots[1], input) == NoneV;
    assert INLET.Key()[0] == DRIVE.Key()[0] == 'n' != "unused"[0];
    LargerOfNone(INLET.Key(), DRIVE.Key(), ctx, OUTLET.Key());
  }

  /** Binding a name that is not used leaves the larger of two missing values missing. */
  lemma LargerOfNone(x: string, y: string, ctx: Context, z: string)
    requires Get(ctx, x) == NoneV && Get(ctx, y) == NoneV && x != "unused" && y != "unused"
    ensures Eval(BindN("unused", IdentN(z), ApplyN("max", MaxOf, ListN([IdentN(x), IdentN(y)]))), ctx).0 == Ret(NoneV)
  {
    var inner := ctx["unused" := Get(ctx, z)];
    var ns := [IdentN(x), IdentN(y)];
    IdentFirst(y, [], inner);
    IdentFirst(x, [IdentN(y)], inner);
    assert ns == [IdentN(x)] + [IdentN(y)] && [IdentN(y)] + [] == [IdentN(y)];
    var values := [NoneV] + ([NoneV] + []);
    assert EvalAll(ns, inner).0 == Some(values);
    MaxOfNone(values);
    assert Eval(ListN(ns), inner).0 == Ret(ListV(values));
  }

  lemma IdentFirst(x: string, ns: seq<Node>, ctx: Context)
    requires EvalAll(ns, ctx).0.Some?
    ensures EvalAll([IdentN(x)] + ns, ctx).0 == Some([Get(ctx, x)] + EvalAll(ns, ctx).0.value)
  {
    assert ([IdentN(x)] + ns)[1..] == ns;
  }

  lemma {:induction false} MaxOfNone(values: seq<Value>)
    requires forall v :: v in values ==> v == NoneV
    ensures MaxFrom(NoneV, values) == Ret(NoneV)
  {
    if values != [] {
      assert values[0] in values && forall v :: v in values[1..] ==> v in values;
      MaxOfNone(values[1..]);
    }
  }

  // ----- Missing sensors over many cycles -----

  /** What is remembered of a sensor after cycles that did not raise. */
  function SlotRun(v: Variable, inputs: seq<Input>): Slot {
    if inputs == [] then Slot(false, 0, 0, 0)
    else SlotAfter(v, SlotRun(v, inputs[..|inputs| - 1]), inputs[|inputs| - 1])
  }

  function LookAt(v: Variable, inputs: seq<Input>, i: nat): Seen
    requires i < |inputs|
  {
    Look(v, SlotRun(v, inputs[..i]), inputs[i])
  }

  /** Missing in the last `k` cycles. */
  ghost predicate MissingFor(v: Variable, inputs: seq<Input>, k: nat) {
    k <= |inputs| && forall i :: |inputs| - k <= i < |inputs| ==> LookAt(v, inputs, i).Missing?
  }

  /** Three misses in a row, and not seen since. */
  ghost predicate Lost(v: Variable, inputs: seq<Input>, i: nat) {
    && i + 3 <= |inputs|
    && (forall j :: i <= j < i + 3 ==> LookAt(v, inputs, j).Missing?)
    && (forall j :: i + 3 <= j < |inputs| ==> !LookAt(v, inputs, j).Present?)
  }

  lemma LookAtPrefix(v: Variable, inputs: seq<Input>, i: nat)
    requires inputs != [] && i < |inputs| - 1
    ensures LookAt(v, inputs[..|inputs| - 1], i) == LookAt(v, inputs, i)
  {
    assert inputs[..|inputs| - 1][..i] == inputs[..i];
  }

  lemma {:induction false} RetryCountsMisses(v: Variable, inputs: seq<Input>)
    requires forall i :: 0 <= i < |inputs| ==> !LookAt(v, inputs, i).NoBoard?
    ensures SlotRun(v, inputs).retry <= 2
    ensures SlotRun(v, inputs).retry >= 1 <==> MissingFor(v, inputs, 1)
    ensures SlotRun(v, inputs).retry >= 2 <==> MissingFor(v, inputs, 2)
  {
    if inputs != [] {
      var init := inputs[..|inputs| - 1];
      forall i: nat | i < |init| ensures LookAt(v, init, i) == LookAt(v, inputs, i) { LookAtPrefix(v, inputs, i); }
      RetryCountsMisses(v, init);
      assert MissingFor(v, inputs, 1) <==> LookAt(v, inputs, |init|).Missing?;
      assert MissingFor(v, inputs, 2) <==> LookAt(v, inputs, |init|).Missing? && MissingFor(v, init, 1);
    }
  }

  lemma LostStep(v: Variable, inputs: seq<Input>, i: nat)
    requires inputs != []
    requires var init := inputs[..|inputs| - 1];
             forall k :: 0 <= k < |init| ==> LookAt(v, init, k) == LookAt(v, inputs, k)
    ensures var n := |inputs| - 1;
            var (init, last) := (inputs[..n], LookAt(v, inputs, n));
            Lost(v, inputs, i) <==>
              (Lost(v, init, i) && !last.Present?) || (i + 2 == n && last.Missing? && MissingFor(v, init, 2))
  {
    var n := |inputs| - 1;
    assert i + 2 == n && Lost(v, inputs, i) ==> LookAt(v, inputs, n).Missing?;
  }

  /** A sensor is reported missing exactly if it was missing in three consecutive
      cycles and has not been seen since; skipped cycles in between keep the
      report but restart the count. */
  lemma {:induction false} MissingReportedIff(v: Variable, inputs: seq<Input>)
    requires forall i :: 0 <= i < |inputs| ==> !LookAt(v, inputs, i).NoBoard?
    ensures SlotRun(v, inputs).asserted <==> exists i: nat :: Lost(v, inputs, i)
  {
    if inputs != [] {
      var n := |inputs| - 1;
      var init := inputs[..n];
      forall i: nat | i < n ensures LookAt(v, init, i) == LookAt(v, inputs, i) { LookAtPrefix(v, inputs, i); }
      MissingReportedIff(v, init);
      RetryCountsMisses(v, init);
      var last := LookAt(v, inputs, n);
      forall i: nat
        ensures Lost(v, inputs, i) <==>
                (Lost(v, init, i) && !last.Present?) || (i + 2 == n && last.Missing? && MissingFor(v, init, 2))
      {
        LostStep(v, inputs, i);
      }
      if last.Missing? && MissingFor(v, init, 2) {
        assert Lost(v, inputs, (n - 2) as nat);
      }
    }
  }

  /** A sensor the board checks in every cycle is skipped unless the answers of
      this cycle and the one before are non-zero, hence always in the first. */
  lemma SkippedIff(v: Variable, inputs: seq<Input>, i: nat)
    requires i < |inputs| && forall k :: 0 <= k < |inputs| ==> v.Key() in inputs[k].valid
    requires forall k :: 0 <= k < |inputs| ==> !LookAt(v, inputs, k).NoBoard?
    ensures LookAt(v, inputs, i).Skipped? <==>
              i == 0 || inputs[i].valid[v.Key()] == 0 || inputs[i - 1].valid[v.Key()] == 0
  {
  }

  /** A zone after cycles, whatever became of their results. */
  function RunCycles(c: Config, vars: seq<Variable>, s: ZoneState, inputs: seq<Input>): (after: ZoneState)
    requires |vars| == |s.slots|
    ensures |after.slots| == |vars|
  {
    if inputs == [] then s
    else RunZone(c, vars, RunCycles(c, vars, s, inputs[..|inputs| - 1]), inputs[|inputs| - 1]).1
  }

  /** No cycle's scan met an unknown board. */
  ghost predicate ScansPass(c: Config, vars: seq<Variable>, s: ZoneState, inputs: seq<Input>)
    requires |vars| == |s.slots|
  {
    forall i :: 0 <= i < |inputs| ==> ScanPasses(c, vars, s, inputs, i)
  }

  predicate ScanPasses(c: Config, vars: seq<Variable>, s: ZoneState, inputs: seq<Input>, i: nat)
    requires |vars| == |s.slots| && i < |inputs|
  {
    Passed(vars, RunCycles(c, vars, s, inputs[..i]).slots, inputs[i]) == |vars|
  }

  lemma ScanPassesPrefix(c: Config, vars: seq<Variable>, s: ZoneState, inputs: seq<Input>)
    requires |vars| == |s.slots| && inputs != [] && ScansPass(c, vars, s, inputs)
    ensures ScansPass(c, vars, s, inputs[..|inputs| - 1])
  {
    var init := inputs[..|inputs| - 1];
    forall i | 0 <= i < |init| ensures ScanPasses(c, vars, s, init, i) {
      assert ScanPasses(c, vars, s, inputs, i) && init[..i] == inputs[..i];
    }
  }

  /** As the constructor leaves a zone. */
  predicate Fresh(vars: seq<Variable>, s: ZoneState) {
    s.slots == seq(|vars|, _ => Slot(false, 0, 0, 0))
  }

  /** The zone remembers of each sensor just what that sensor's own cycles leave. */
  lemma {:induction false} ZoneKeepsSlotRuns(c: Config, vars: seq<Variable>, s: ZoneState, inputs: seq<Input>, k: nat)
    requires Fresh(vars, s) && ScansPass(c, vars, s, inputs) && k < |vars|
    ensures RunCycles(c, vars, s, inputs).slots[k] == SlotRun(vars[k], inputs)
  {
    if inputs != [] {
      ScanPassesPrefix(c, vars, s, inputs);
      ZoneKeepsSlotRuns(c, vars, s, inputs[..|inputs| - 1], k);
      assert ScanPasses(c, vars, s, inputs, |inputs| - 1);
    }
  }

  /** So over any cycles of a zone whose scans pass, a sensor is reported missing exactly
      if it was missing in three consecutive ones and has not been seen since. */
  lemma ZoneReportsMissingIff(c: Config, vars: seq<Variable>, s: ZoneState, inputs: seq<Input>, k: nat)
    requires Fresh(vars, s) && ScansPass(c, vars, s, inputs) && k < |vars|
    ensures RunCycles(c, vars, s, inputs).slots[k].asserted <==> exists i: nat :: Lost(vars[k], inputs, i)
  {
    forall i: nat | i < |inputs| ensures !LookAt(vars[k], inputs, i).NoBoard? {
      BoardKnown(c, vars, s, inputs, k, i);
    }
    ZoneKeepsSlotRuns(c, vars, s, inputs, k);
    MissingReportedIff(vars[k], inputs);
  }

  lemma BoardKnown(c: Config, vars: seq<Variable>, s: ZoneState, inputs: seq<Input>, k: nat, i: nat)
    requires Fresh(vars, s) && ScansPass(c, vars, s, inputs) && k < |vars| && i < |inputs|
    ensures !LookAt(vars[k], inputs, i).NoBoard?
  {
    var init := inputs[..i];
    forall j | 0 <= j < i ensures ScanPasses(c, vars, s, init, j) {
      assert ScanPasses(c, vars, s, inputs, j) && init[..j] == inputs[..j];
    }
    ZoneKeepsSlotRuns(c, vars, s, init, k);
    assert ScanPasses(c, vars, s, inputs, i);
  }
}
