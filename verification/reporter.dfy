/**
 * The reporter: the arithmetic behind each histogram line of
 * `print_aggregation` (the text layout itself is not modelled).
 */
module Reporter {
  import opened Common
  import opened Aggregator

  /** `bar_len`: the width of a full bar. */
  const BarLen: nat := 30

  const NsecsPerSec: nat := 1_000_000_000

  lemma DivThousandCubed(n: nat)
    ensures n / 1000 / 1000 / 1000 == n / NsecsPerSec
  {
    var a := n / 1000;
    var b := a / 1000;
    var c := b / 1000;
    assert n == 1000 * a + n % 1000;
    assert a == 1000 * b + a % 1000;
    assert b == 1000 * c + b % 1000;
    assert n == NsecsPerSec * c + (1_000_000 * (b % 1000) + 1000 * (a % 1000) + n % 1000);
  }

  /**
   * `Nsecs_Arg`: whole seconds and the nanosecond remainder that the
   * "%zu.%09zu" format prints for `n` nanoseconds.
   */
  function NsecsArg(n: nat): (r: (nat, nat))
    ensures r.0 == n / NsecsPerSec
    ensures r.0 * NsecsPerSec + r.1 == n && r.1 < NsecsPerSec
  {
    DivThousandCubed(n);
    var secs := n / 1000 / 1000 / 1000;
    (secs, n - secs * 1000 * 1000 * 1000)
  }

  /** `max_y`: the largest y of the bucket's points, 0 for no points. */
  function MaxY(points: seq<Point>): (m: nat)
    ensures forall j :: 0 <= j < |points| ==> points[j].y <= m
    ensures points == [] ==> m == 0
    ensures points != [] ==> exists j :: 0 <= j < |points| && points[j].y == m
    decreases |points|
  {
    if points == [] then 0
    else
      var n := |points| - 1;
      var m := MaxY(points[..n]);
      if points[n].y > m then points[n].y else m
  }

  /** The loop at the head of each bucket that computes `max_y`. */
  method ComputeMaxY(points: seq<Point>) returns (maxY: nat)
    ensures maxY == MaxY(points)
  {
    maxY := 0;
    for j := 0 to |points|
      invariant maxY == MaxY(points[..j])
    {
      assert points[..j + 1][..j] == points[..j];
      if points[j].y > maxY {
        maxY := points[j].y;
      }
    }
    assert points[..|points|] == points;
  }

  /**
   * The bar length as the source computes it, `floor(bar_len * (y / max_y))`,
   * taken as the exact quotient. `None` stands for the undefined conversion
   * of the NaN (or infinity) that the division gives when `max_y` is 0.
   */
  function BarAsWritten(y: nat, maxY: nat): (r: Option<nat>)
    ensures r.None? <==> maxY == 0
    ensures r.Some? ==> r.value * maxY <= BarLen * y < (r.value + 1) * maxY
  {
    if maxY == 0 then None else Some(BarLen * y / maxY)
  }

  /**
   * The bar length: the floor of `bar_len * y / max_y`, and 0 for a bucket
   * whose points all took 0 ns.
   */
  function BarCount(y: nat, maxY: nat): (n: nat)
    ensures maxY > 0 ==> n * maxY <= BarLen * y < (n + 1) * maxY
    ensures maxY == 0 ==> n == 0
  {
    if maxY == 0 then 0 else BarLen * y / maxY
  }

  lemma {:induction false} MulLe(a: nat, b: nat, c: nat)
    requires a <= b
    ensures a * c <= b * c
  {
    if c > 0 {
      MulLe(a, b, c - 1);
      assert a * c == a * (c - 1) + a && b * c == b * (c - 1) + b;
    }
  }

  lemma MulCancelLe(a: nat, b: nat, m: nat)
    requires m > 0 && a * m <= b * m
    ensures a <= b
  {
    if a > b {
      MulLe(b + 1, a, m);
    }
  }

  lemma MulCancelLt(a: nat, b: nat, m: nat)
    requires a * m < b * m
    ensures a < b
  {
    if a >= b {
      MulLe(b, a, m);
    }
  }

  /** Bars are never longer than `bar_len`, the longest point gets a full bar, a 0 ns point none. */
  lemma BarBounds(y: nat, maxY: nat)
    requires y <= maxY
    ensures BarCount(y, maxY) <= BarLen
    ensures 0 < maxY == y ==> BarCount(y, maxY) == BarLen
    ensures y == 0 ==> BarCount(y, maxY) == 0
  {
    var n := BarCount(y, maxY);
    if maxY > 0 {
      MulLe(y, maxY, BarLen);
      assert n * maxY <= BarLen * maxY;
      MulCancelLe(n, BarLen, maxY);
      if y == maxY {
        MulCancelLt(BarLen, n + 1, maxY);
      }
      if y == 0 {
        MulCancelLe(n, 0, maxY);
      }
    }
  }

  /** A longer time never gets a shorter bar. */
  lemma BarMonotone(y1: nat, y2: nat, maxY: nat)
    requires y1 <= y2
    ensures BarCount(y1, maxY) <= BarCount(y2, maxY)
  {
    if maxY > 0 {
      var n1, n2 := BarCount(y1, maxY), BarCount(y2, maxY);
      MulLe(y1, y2, BarLen);
      MulCancelLt(n1, n2 + 1, maxY);
    }
  }

  /** Where `max_y` is positive the corrected bar is exactly the as-written one, `BarAsWritten`. */
  lemma BarAgreesWhereDefined(y: nat, maxY: nat)
    requires maxY > 0
    ensures BarAsWritten(y, maxY) == Some(BarCount(y, maxY))
  {
  }

  /** A bucket whose single point took 0 ns reaches the undefined conversion in the source. */
  lemma ZeroBucketUndefined()
    ensures MaxY([Point(1024, 0)]) == 0
    ensures BarAsWritten(0, MaxY([Point(1024, 0)])) == None
    ensures BarCount(0, MaxY([Point(1024, 0)])) == 0
  {
  }

  /** One printed line: x, the time as seconds and nanoseconds, and the bar length. */
  datatype Row = Row(x: nat, secs: nat, nsecs: nat, bar: nat)

  /** One printed bucket: its key header and one row per point. */
  datatype Section = Section(key: nat, rows: seq<Row>)

  function RenderRow(p: Point, maxY: nat): Row {
    var t := NsecsArg(p.y);
    Row(p.x, t.0, t.1, BarCount(p.y, maxY))
  }

  function RenderSection(a: Aggregation): (s: Section)
    ensures s.key == a.key && |s.rows| == |a.points|
    ensures forall j :: 0 <= j < |s.rows| ==>
              && s.rows[j].x == a.points[j].x
              && s.rows[j].secs * NsecsPerSec + s.rows[j].nsecs == a.points[j].y
              && s.rows[j].nsecs < NsecsPerSec
              && s.rows[j].bar == BarCount(a.points[j].y, MaxY(a.points))
  {
    var m := MaxY(a.points);
    Section(a.key, seq(|a.points|, j requires 0 <= j < |a.points| => RenderRow(a.points[j], m)))
  }

  function RenderAll(aggs: seq<Aggregation>): seq<Section> {
    seq(|aggs|, i requires 0 <= i < |aggs| => RenderSection(aggs[i]))
  }

  /**
   * In every printed bucket: rows follow the points, each row's time splits
   * its y exactly, bars are at most `bar_len` and grow with y, a point at the
   * bucket's maximum gets the full bar when that maximum is positive, and a
   * 0 ns point gets none.
   */
  lemma SectionBars(a: Aggregation)
    ensures var s := RenderSection(a);
            && s.key == a.key && |s.rows| == |a.points|
            && (forall j :: 0 <= j < |s.rows| ==>
                  && s.rows[j].x == a.points[j].x
                  && s.rows[j].secs * NsecsPerSec + s.rows[j].nsecs == a.points[j].y
                  && s.rows[j].nsecs < NsecsPerSec
                  && s.rows[j].bar <= BarLen
                  && (a.points[j].y == 0 ==> s.rows[j].bar == 0))
            && (forall j :: 0 <= j < |s.rows| && a.points[j].y == MaxY(a.points) > 0 ==> s.rows[j].bar == BarLen)
            && (forall j, k :: 0 <= j < |s.rows| && 0 <= k < |s.rows| && a.points[j].y <= a.points[k].y ==>
                  s.rows[j].bar <= s.rows[k].bar)
  {
    var m := MaxY(a.points);
    var s := RenderSection(a);
    forall j | 0 <= j < |s.rows|
      ensures s.rows[j].bar <= BarLen
      ensures a.points[j].y == m > 0 ==> s.rows[j].bar == BarLen
      ensures a.points[j].y == 0 ==> s.rows[j].bar == 0
    {
      BarBounds(a.points[j].y, m);
    }
    forall j, k | 0 <= j < |s.rows| && 0 <= k < |s.rows| && a.points[j].y <= a.points[k].y
      ensures s.rows[j].bar <= s.rows[k].bar
    {
      BarMonotone(a.points[j].y, a.points[k].y, m);
    }
  }

  /**
   * `print_aggregation`: for each bucket in table order, the header key and
   * one row per point, with `max_y` computed once per bucket.
   */
  method PrintAggregation(aggs: seq<Aggregation>) returns (out: seq<Section>)
    ensures out == RenderAll(aggs)
  {
    out := [];
    for i := 0 to |aggs|
      invariant out == RenderAll(aggs[..i])
    {
      var points := aggs[i].points;
      var maxY := ComputeMaxY(points);
      var rows: seq<Row> := [];
      for j := 0 to |points|
        invariant rows == seq(j, k requires 0 <= k < j => RenderRow(points[k], maxY))
      {
        var t := NsecsArg(points[j].y);
        rows := rows + [Row(points[j].x, t.0, t.1, BarCount(points[j].y, maxY))];
      }
      assert Section(aggs[i].key, rows) == RenderSection(aggs[i]);
      out := out + [Section(aggs[i].key, rows)];
      assert RenderAll(aggs[..i + 1]) == RenderAll(aggs[..i]) + [RenderSection(aggs[i])];
    }
    assert aggs[..|aggs|] == aggs;
  }
}
