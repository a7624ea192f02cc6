/**
 From a measured fan speed to a percentage of full speed, by integer
 interpolation in a table of points.  The source's arithmetic is 32 bits wide;
 ProductsFit bounds every product it forms.
 */
module FanRpm {
  datatype Point = Point(pct: nat, rpm: nat)

  /** The tables the daemon is built with: positive speeds, strictly increasing. */
  predicate ValidTable(table: seq<Point>) {
    && table != [] && table[0].rpm > 0
    && forall i, j :: 0 <= i < j < |table| ==> table[i].rpm < table[j].rpm && table[i].pct < table[j].pct
  }

  /** The first point above `rpm`, or the table's length. */
  function Above(table: seq<Point>, rpm: nat): (i: nat)
    ensures i <= |table|
    ensures forall k :: 0 <= k < i ==> table[k].rpm <= rpm
    ensures i < |table| ==> rpm < table[i].rpm
  {
    if table == [] || table[0].rpm > rpm then 0
    else
      var k := Above(table[1..], rpm);
      assert forall j :: 0 < j < 1 + k ==> table[j] == table[1..][j - 1];
      1 + k
  }

  /** Below the first point on the line from the origin, between two points on the
      line through them, beyond the last point its percentage. */
  function Pct(table: seq<Point>, rpm: nat): int
    requires ValidTable(table)
  {
    var i := Above(table, rpm);
    if i == 0 then Below(table[0], rpm)
    else if i == |table| then table[i - 1].pct
    else Between(table[i - 1], table[i], rpm)
  }

  function Below(first: Point, rpm: nat): int
    requires first.rpm > 0
  {
    (rpm * first.pct) / first.rpm
  }

  function Between(lo: Point, hi: Point, rpm: nat): int
    requires lo.rpm < hi.rpm
  {
    hi.pct - ((hi.rpm - rpm) * (hi.pct - lo.pct)) / (hi.rpm - lo.rpm)
  }

  method FanRpmToPct(table: array<Point>, rpm: nat) returns (pct: int)
    requires ValidTable(table[..])
    ensures pct == Pct(table[..], rpm)
  {
    var i := 0;
    while i < table.Length
      invariant 0 <= i <= table.Length
      invariant forall k :: 0 <= k < i ==> table[k].rpm <= rpm
    {
      if table[i].rpm > rpm {
        break;
      }
      i := i + 1;
    }
    if i == 0 {
      return (rpm * table[i].pct) / table[i].rpm;
    } else if i == table.Length {
      return table[i - 1].pct;
    }
    var percentDiff := table[i].pct - table[i - 1].pct;
    var rpmDiff := table[i].rpm - table[i - 1].rpm;
    var fanDiff := table[i].rpm - rpm;
    return table[i].pct - (fanDiff * percentDiff / rpmDiff);
  }

  // ----- Division -----

  lemma ProductMonotone(a: nat, b: nat, c: nat, d: nat)
    requires a <= c && b <= d
    ensures a * b <= c * d
  {
    assert a * b <= c * b <= c * d;
  }

  lemma QuotientMonotone(a: nat, b: nat, d: nat)
    requires a <= b && d > 0
    ensures a / d <= b / d
  {
    var x, y := a / d, b / d;
    assert d * x <= a && b < d * y + d;
    if x > y {
      ProductMonotone(d, y + 1, d, x);
      assert false;
    }
  }

  lemma QuotientOfMultiple(k: nat, d: nat)
    requires d > 0
    ensures (d * k) / d == k
  {
    var q := (d * k) / d;
    assert d * q <= d * k < d * q + d;
    if q < k {
      ProductMonotone(d, q + 1, d, k);
      assert false;
    } else if k < q {
      ProductMonotone(d, k + 1, d, q);
      assert false;
    }
  }

  // ----- Properties -----

  /** Between two points the result stays between their percentages, meets them at
      the points and never falls as the speed rises. */
  lemma BetweenBounds(lo: Point, hi: Point, rpm: nat)
    requires lo.rpm <= rpm <= hi.rpm && lo.rpm < hi.rpm && lo.pct <= hi.pct
    ensures lo.pct <= Between(lo, hi, rpm) <= hi.pct
    ensures Between(lo, hi, lo.rpm) == lo.pct
  {
    var dr, dp := hi.rpm - lo.rpm, hi.pct - lo.pct;
    ProductMonotone(hi.rpm - rpm, dp, dr, dp);
    QuotientMonotone((hi.rpm - rpm) * dp, dr * dp, dr);
    QuotientOfMultiple(dp, dr);
  }

  lemma BetweenMonotone(lo: Point, hi: Point, r1: nat, r2: nat)
    requires lo.rpm < hi.rpm && lo.pct <= hi.pct && r1 <= r2 <= hi.rpm
    ensures Between(lo, hi, r1) <= Between(lo, hi, r2)
  {
    var dr, dp := hi.rpm - lo.rpm, hi.pct - lo.pct;
    ProductMonotone(hi.rpm - r2, dp, hi.rpm - r1, dp);
    QuotientMonotone((hi.rpm - r2) * dp, (hi.rpm - r1) * dp, dr);
  }

  /** On the line from the origin the result rises up to the first percentage. */
  lemma BelowBounds(first: Point, r1: nat, r2: nat)
    requires r1 <= r2 <= first.rpm && first.rpm > 0
    ensures 0 <= Below(first, r1) <= Below(first, r2) <= first.pct
  {
    ProductMonotone(r1, first.pct, r2, first.pct);
    QuotientMonotone(r1 * first.pct, r2 * first.pct, first.rpm);
    ProductMonotone(r2, first.pct, first.rpm, first.pct);
    QuotientMonotone(r2 * first.pct, first.rpm * first.pct, first.rpm);
    QuotientOfMultiple(first.pct, first.rpm);
  }

  /** The range of results in each segment. */
  lemma SegmentRange(table: seq<Point>, rpm: nat)
    requires ValidTable(table)
    ensures var i := Above(table, rpm);
            (if i == 0 then 0 else table[i - 1].pct) <= Pct(table, rpm) <=
            (if i == |table| then table[i - 1].pct else table[i].pct)
  {
    var i := Above(table, rpm);
    if i == 0 {
      BelowBounds(table[0], rpm, rpm);
    } else if i < |table| {
      BetweenBounds(table[i - 1], table[i], rpm);
    }
  }

  lemma SegmentMonotone(table: seq<Point>, r1: nat, r2: nat)
    requires ValidTable(table) && r1 <= r2 && Above(table, r1) == Above(table, r2)
    ensures Pct(table, r1) <= Pct(table, r2)
  {
    var i := Above(table, r1);
    if i == 0 {
      BelowBounds(table[0], r1, r2);
    } else if i < |table| {
      BetweenMonotone(table[i - 1], table[i], r1, r2);
    }
  }

  /** A faster fan never reads a lower percentage. */
  lemma PctMonotone(table: seq<Point>, r1: nat, r2: nat)
    requires ValidTable(table) && r1 <= r2
    ensures Pct(table, r1) <= Pct(table, r2)
  {
    if Above(table, r1) == Above(table, r2) {
      SegmentMonotone(table, r1, r2);
    } else {
      SegmentRange(table, r1);
      SegmentRange(table, r2);
    }
  }

  /** Exact at every table point, and never above the last one. */
  lemma PctAtPoints(table: seq<Point>, k: nat, rpm: nat)
    requires ValidTable(table) && k < |table|
    ensures Pct(table, table[k].rpm) == table[k].pct
    ensures 0 <= Pct(table, rpm) <= table[|table| - 1].pct
  {
    if k + 1 < |table| {
      BetweenBounds(table[k], table[k + 1], table[k].rpm);
    }
    SegmentRange(table, rpm);
  }

  /** The exact interpolation. */
  function ExactBelow(first: Point, rpm: nat): real
    requires first.rpm > 0
  {
    (rpm * first.pct) as real / first.rpm as real
  }

  function ExactBetween(lo: Point, hi: Point, rpm: nat): real
    requires lo.rpm < hi.rpm
  {
    lo.pct as real + (rpm - lo.rpm) as real * (hi.pct - lo.pct) as real / (hi.rpm - lo.rpm) as real
  }

  function Exact(table: seq<Point>, rpm: nat): real
    requires ValidTable(table)
  {
    var i := Above(table, rpm);
    if i == 0 then ExactBelow(table[0], rpm)
    else if i == |table| then table[i - 1].pct as real
    else ExactBetween(table[i - 1], table[i], rpm)
  }

  /** Off by less than one from the exact interpolation: rounded down below the
      first point, up elsewhere. */
  lemma PctNearExact(table: seq<Point>, rpm: nat)
    requires ValidTable(table)
    ensures var (pct, exact) := (Pct(table, rpm) as real, Exact(table, rpm));
            if rpm < table[0].rpm then pct <= exact < pct + 1.0 else exact <= pct < exact + 1.0
  {
    var i := Above(table, rpm);
    if i == 0 {
      BelowNearExact(table[0], rpm);
    } else if i < |table| {
      BetweenNearExact(table[i - 1], table[i], rpm);
    }
  }

  lemma BelowNearExact(first: Point, rpm: nat)
    requires first.rpm > 0
    ensures Below(first, rpm) as real <= ExactBelow(first, rpm) < Below(first, rpm) as real + 1.0
  {
    QuotientNearExact(rpm * first.pct, first.rpm);
  }

  lemma QuotientNearExact(a: nat, d: nat)
    requires d > 0
    ensures (a / d) as real <= a as real / d as real < (a / d) as real + 1.0
  {
    var q := a / d;
    var low, high := d * q, d * (q + 1);
    assert low <= a < high;
    RealProduct(d, q);
    RealProduct(d, q + 1);
    QuotientBelow(a as real, d as real, (q + 1) as real);
  }

  lemma RealProduct(d: nat, q: nat)
    ensures (d * q) as real == d as real * q as real
  {
  }

  lemma QuotientBelow(x: real, d: real, q: real)
    requires d > 0.0 && x < d * q
    ensures x / d < q
  {
  }

  lemma BetweenNearExact(lo: Point, hi: Point, rpm: nat)
    requires lo.rpm <= rpm <= hi.rpm && lo.rpm < hi.rpm && lo.pct <= hi.pct
    ensures ExactBetween(lo, hi, rpm) <= Between(lo, hi, rpm) as real < ExactBetween(lo, hi, rpm) + 1.0
  {
    var down, up, dp, dr := hi.rpm - rpm, rpm - lo.rpm, hi.pct - lo.pct, hi.rpm - lo.rpm;
    QuotientNearExact(down * dp, dr);
    var fromTop, q := (down * dp) as real / dr as real, (down * dp) / dr;
    assert ExactBetween(lo, hi, rpm) == hi.pct as real - fromTop;
    assert Between(lo, hi, rpm) == hi.pct - q;
  }

  /** No product exceeds the last speed times the last percentage. */
  lemma ProductsFit(table: seq<Point>, rpm: nat)
    requires ValidTable(table)
    ensures var i := Above(table, rpm);
            var last := table[|table| - 1];
            && (i == 0 ==> rpm * table[0].pct <= last.rpm * last.pct)
            && (0 < i < |table| ==>
                  (table[i].rpm - rpm) * (table[i].pct - table[i - 1].pct) <= last.rpm * last.pct)
  {
    var i := Above(table, rpm);
    var last := table[|table| - 1];
    if i == 0 {
      ProductMonotone(rpm, table[0].pct, last.rpm, last.pct);
    } else if i < |table| {
      ProductMonotone(table[i].rpm - rpm, table[i].pct - table[i - 1].pct, last.rpm, last.pct);
    }
  }
}
