/**
  The per-country table that `attach_metric_to_geojson` builds before it
  touches any feature: the chosen metric with missing values read as 0,
  its log value, the normalisation bounds, elevation and colour, and the
  iso3 -> (value, elevation, colour) lookup.

  `math.log10` is not modelled as floating point: it is a parameter `lg`
  of which only what `IsLog10` states is assumed (log10(1) = 0 and log10 is
  strictly increasing on the positive reals).
 */
module Metric {
  import opened Wrappers
  import opened Rows
  import Color

  /** What is used of log10: it is 0 at 1 and strictly increasing on positives. */
  ghost predicate IsLog10(lg: real -> real) {
    lg(1.0) == 0.0 && forall x, y :: 0.0 < x < y ==> lg(x) < lg(y)
  }

  /** `pd.to_numeric(..., errors="coerce").fillna(0.0)`: a missing cell reads as 0. */
  function Coerce(cell: Option<real>): (v: real)
    ensures cell.Some? ==> v == cell.value
    ensures cell.None? ==> v == 0.0
  {
    cell.GetOr(0.0)
  }

  /** `math.log10(x + 1) if x > 0 else 0.0`. */
  function LogValue(lg: real -> real, x: real): (l: real)
    ensures x <= 0.0 ==> l == 0.0
    ensures x > 0.0 ==> l == lg(x + 1.0)
  {
    if x > 0.0 then lg(x + 1.0) else 0.0
  }

  /** The log value is 0 for non-positive values and positive for positive ones. */
  lemma LogValueSign(lg: real -> real, x: real)
    requires IsLog10(lg)
    ensures x <= 0.0 ==> LogValue(lg, x) == 0.0
    ensures x > 0.0 ==> LogValue(lg, x) > 0.0
  {
    if x > 0.0 {
      assert lg(1.0) < lg(x + 1.0);
    }
  }

  /** The log value is monotone in the value, strictly so among positive values. */
  lemma LogValueMonotone(lg: real -> real, x: real, y: real)
    requires IsLog10(lg)
    requires x <= y
    ensures LogValue(lg, x) <= LogValue(lg, y)
    ensures 0.0 < x < y ==> LogValue(lg, x) < LogValue(lg, y)
  {
    LogValueSign(lg, x);
    LogValueSign(lg, y);
    if 0.0 < x < y {
      assert lg(x + 1.0) < lg(y + 1.0);
    }
  }

  /** The strictly positive entries of `logs`, in order (`nz`). */
  function Positives(logs: seq<real>): (nz: seq<real>)
    ensures forall v :: v in nz <==> v in logs && v > 0.0
  {
    if logs == [] then []
    else if logs[0] > 0.0 then [logs[0]] + Positives(logs[1..])
    else Positives(logs[1..])
  }

  /** `min` of a non-empty sequence. */
  function MinOf(s: seq<real>): (m: real)
    requires |s| > 0
    ensures m in s
    ensures forall v :: v in s ==> m <= v
  {
    if |s| == 1 then s[0]
    else
      var rest := MinOf(s[1..]);
      assert s == [s[0]] + s[1..];
      if s[0] <= rest then s[0] else rest
  }

  /** `max` of a non-empty sequence. */
  function MaxOf(s: seq<real>): (m: real)
    requires |s| > 0
    ensures m in s
    ensures forall v :: v in s ==> v <= m
  {
    if |s| == 1 then s[0]
    else
      var rest := MaxOf(s[1..]);
      assert s == [s[0]] + s[1..];
      if s[0] >= rest then s[0] else rest
  }

  datatype Bounds = Bounds(vmin: real, vmax: real)

  /** The normalisation range: min and max of the strictly positive log
      values, or [0, 1] when there are none. */
  function NormBounds(logs: seq<real>): (b: Bounds)
    ensures b.vmin <= b.vmax
    ensures (forall v :: v in logs ==> v <= 0.0) ==> b == Bounds(0.0, 1.0)
    ensures (exists v :: v in logs && v > 0.0) ==>
      0.0 < b.vmin && b.vmin in logs && b.vmax in logs &&
      forall v :: v in logs && v > 0.0 ==> b.vmin <= v <= b.vmax
  {
    var nz := Positives(logs);
    if |nz| > 0 then Bounds(MinOf(nz), MaxOf(nz))
    else
      assert forall v :: v in logs ==> v <= 0.0;
      Bounds(0.0, 1.0)
  }

  lemma DivMonotone(a: real, b: real, d: real)
    requires 0.0 < d && a <= b
    ensures a / d <= b / d
  {
    var qa, qb := a / d, b / d;
    assert qa * d == a && qb * d == b;
  }

  lemma DivFacts(a: real, d: real)
    requires 0.0 < d
    ensures 0.0 <= a <= d ==> 0.0 <= a / d <= 1.0
    ensures a / d == 0.0 <==> a == 0.0
    ensures a / d == 1.0 <==> a == d
    ensures a < 0.0 ==> a / d < 0.0
  {
    assert (a / d) * d == a;
    assert d / d == 1.0;
    assert 0.0 / d == 0.0;
    if 0.0 <= a <= d {
      DivMonotone(0.0, a, d);
      DivMonotone(a, d, d);
    }
    if a < 0.0 {
      DivMonotone(a, 0.0, d);
      assert a / d != 0.0;
    }
  }

  /** The inner `normalize`: 0 for an empty range, else the position of `v` in it. */
  function Normalize(b: Bounds, v: real): (t: real)
    ensures b.vmax <= b.vmin ==> t == 0.0
    ensures b.vmin < b.vmax && b.vmin <= v <= b.vmax ==> 0.0 <= t <= 1.0
    ensures b.vmin < b.vmax ==> (t == 0.0 <==> v == b.vmin) && (t == 1.0 <==> v == b.vmax)
    ensures b.vmin < b.vmax && v < b.vmin ==> t < 0.0
  {
    if b.vmax <= b.vmin then 0.0
    else
      DivFacts(v - b.vmin, b.vmax - b.vmin);
      (v - b.vmin) / (b.vmax - b.vmin)
  }

  /** `normalize` is monotone in its argument. */
  lemma NormalizeMonotone(b: Bounds, u: real, v: real)
    requires u <= v
    ensures Normalize(b, u) <= Normalize(b, v)
  {
    if b.vmin < b.vmax {
      DivMonotone(u - b.vmin, v - b.vmin, b.vmax - b.vmin);
    }
  }

  /** The `value` column: the chosen metric, missing read as 0. */
  function ValueColumn(dfYear: seq<MergedRow>, metric: MetricKind): (vs: seq<real>)
    ensures |vs| == |dfYear|
    ensures forall i :: 0 <= i < |vs| ==>
      vs[i] == (if MetricOf(dfYear[i], metric).Some? then MetricOf(dfYear[i], metric).value else 0.0)
  {
    seq(|dfYear|, i requires 0 <= i < |dfYear| => Coerce(MetricOf(dfYear[i], metric)))
  }

  /** The `log_value` column. */
  function LogColumn(lg: real -> real, vs: seq<real>): (logs: seq<real>)
    ensures |logs| == |vs|
    ensures forall i :: 0 <= i < |vs| && vs[i] <= 0.0 ==> logs[i] == 0.0
    ensures forall i :: 0 <= i < |vs| && vs[i] > 0.0 ==> logs[i] == lg(vs[i] + 1.0)
  {
    seq(|vs|, i requires 0 <= i < |vs| => LogValue(lg, vs[i]))
  }

  /** The bounds `attach_metric_to_geojson` normalises with: (0, 1) when no
      row has a positive value, and otherwise a range holding the positive
      log value of every row. */
  function ValueBounds(dfYear: seq<MergedRow>, metric: MetricKind, lg: real -> real): (b: Bounds)
    ensures b.vmin <= b.vmax
    ensures (forall i :: 0 <= i < |dfYear| ==> Coerce(MetricOf(dfYear[i], metric)) <= 0.0) ==>
      b == Bounds(0.0, 1.0)
    ensures forall i :: 0 <= i < |dfYear| && LogValue(lg, Coerce(MetricOf(dfYear[i], metric))) > 0.0 ==>
      b.vmin <= LogValue(lg, Coerce(MetricOf(dfYear[i], metric))) <= b.vmax
  {
    var logs := LogColumn(lg, ValueColumn(dfYear, metric));
    ValueBoundsFacts(dfYear, metric, lg, logs);
    NormBounds(logs)
  }

  lemma ValueBoundsFacts(dfYear: seq<MergedRow>, metric: MetricKind, lg: real -> real, logs: seq<real>)
    requires logs == LogColumn(lg, ValueColumn(dfYear, metric))
    ensures (forall i :: 0 <= i < |dfYear| ==> Coerce(MetricOf(dfYear[i], metric)) <= 0.0) ==>
      forall v :: v in logs ==> v <= 0.0
    ensures forall i :: 0 <= i < |dfYear| ==> logs[i] == LogValue(lg, Coerce(MetricOf(dfYear[i], metric))) && logs[i] in logs
  {
    var vs := ValueColumn(dfYear, metric);
    forall i | 0 <= i < |dfYear|
      ensures logs[i] == LogValue(lg, Coerce(MetricOf(dfYear[i], metric))) && logs[i] in logs
    {
    }
  }

  lemma MulNonNeg(a: real, b: real)
    ensures 0.0 <= a && 0.0 <= b ==> 0.0 <= a * b
  {
  }

  /** `log_value * elevation_scale`: flat for log value 0, never below the
      ground for a non-negative scale. */
  function Elevation(logValue: real, scale: real): (e: real)
    ensures logValue == 0.0 ==> e == 0.0
    ensures 0.0 <= logValue && 0.0 <= scale ==> 0.0 <= e
  {
    MulNonNeg(logValue, scale);
    logValue * scale
  }

  /** One row of the `values` table once all its columns are added. */
  datatype ValueRow = ValueRow(iso3: string, value: real, logValue: real, elevation: real, fillColor: seq<int>)

  /** The `values` table: one row per row of `df_year`, in order. */
  function ComputeValues(dfYear: seq<MergedRow>, metric: MetricKind, scale: real, lg: real -> real): (t: seq<ValueRow>)
    ensures |t| == |dfYear|
    ensures forall i :: 0 <= i < |t| ==> t[i].iso3 == dfYear[i].iso3
  {
    var vs := ValueColumn(dfYear, metric);
    var logs := LogColumn(lg, vs);
    var b := NormBounds(logs);
    seq(|dfYear|, i requires 0 <= i < |dfYear| =>
      ValueRow(dfYear[i].iso3, vs[i], logs[i], Elevation(logs[i], scale), Color.MakeColor(Normalize(b, logs[i]))))
  }

  /** Row `i` of the `values` table, column by column. */
  lemma ValuesAt(dfYear: seq<MergedRow>, metric: MetricKind, scale: real, lg: real -> real, i: nat)
    requires i < |dfYear|
    ensures var vs := ValueColumn(dfYear, metric);
      var logs := LogColumn(lg, vs);
      ComputeValues(dfYear, metric, scale, lg)[i] ==
        ValueRow(dfYear[i].iso3, vs[i], logs[i], Elevation(logs[i], scale),
                 Color.MakeColor(Normalize(ValueBounds(dfYear, metric, lg), logs[i])))
  {
  }

  /** A row whose value is not positive (missing reads as 0) has log value
      0, elevation 0 and the low end of the ramp, [40, 150, 220, 190]. */
  lemma ValueRowNonPositive(dfYear: seq<MergedRow>, metric: MetricKind, scale: real, lg: real -> real, i: nat)
    requires i < |dfYear|
    requires Coerce(MetricOf(dfYear[i], metric)) <= 0.0
    ensures var r := ComputeValues(dfYear, metric, scale, lg)[i];
      r.value == Coerce(MetricOf(dfYear[i], metric)) &&
      (MetricOf(dfYear[i], metric).None? ==> r.value == 0.0) &&
      r.logValue == 0.0 && r.elevation == 0.0 && r.fillColor == [40, 150, 220, Color.Alpha]
  {
    var vs := ValueColumn(dfYear, metric);
    var logs := LogColumn(lg, vs);
    var b := NormBounds(logs);
    var r := ComputeValues(dfYear, metric, scale, lg)[i];
    ValuesAt(dfYear, metric, scale, lg, i);
    assert r.value == vs[i] == Coerce(MetricOf(dfYear[i], metric));
    assert logs[i] == 0.0;
    assert r.elevation == Elevation(0.0, scale) == 0.0;
    assert Normalize(b, 0.0) <= 0.0;
    Color.MakeColorClamps(Normalize(b, 0.0));
  }

  /** A row whose value v is positive has the positive log value
      log10(v + 1), elevation log value × scale, and the colour of its
      normalised log value, which lies in [0, 1]. */
  lemma ValueRowPositive(dfYear: seq<MergedRow>, metric: MetricKind, scale: real, lg: real -> real, i: nat)
    requires IsLog10(lg)
    requires i < |dfYear|
    requires Coerce(MetricOf(dfYear[i], metric)) > 0.0
    ensures var r, v := ComputeValues(dfYear, metric, scale, lg)[i], Coerce(MetricOf(dfYear[i], metric));
      var b := ValueBounds(dfYear, metric, lg);
      r.value == v && r.logValue == lg(v + 1.0) > 0.0 && r.elevation == Elevation(r.logValue, scale) &&
      0.0 <= Normalize(b, r.logValue) <= 1.0 &&
      r.fillColor == Color.MakeColor(Normalize(b, r.logValue))
  {
    var vs := ValueColumn(dfYear, metric);
    var logs := LogColumn(lg, vs);
    ValuesAt(dfYear, metric, scale, lg, i);
    LogValueSign(lg, vs[i]);
    assert logs[i] in logs;
  }

  /** Colour follows the value: a row with a larger value is at least as red
      and at most as green and blue. */
  lemma ColorMonotone(dfYear: seq<MergedRow>, metric: MetricKind, scale: real, lg: real -> real, i: nat, j: nat)
    requires IsLog10(lg)
    requires i < |dfYear| && j < |dfYear|
    requires Coerce(MetricOf(dfYear[i], metric)) <= Coerce(MetricOf(dfYear[j], metric))
    ensures var t := ComputeValues(dfYear, metric, scale, lg);
      t[i].fillColor[0] <= t[j].fillColor[0] &&
      t[i].fillColor[1] >= t[j].fillColor[1] &&
      t[i].fillColor[2] >= t[j].fillColor[2]
  {
    var vs := ValueColumn(dfYear, metric);
    var logs := LogColumn(lg, vs);
    var b := NormBounds(logs);
    LogValueMonotone(lg, vs[i], vs[j]);
    NormalizeMonotone(b, logs[i], logs[j]);
    ValuesAt(dfYear, metric, scale, lg, i);
    ValuesAt(dfYear, metric, scale, lg, j);
    Color.MakeColorMonotone(Normalize(b, logs[i]), Normalize(b, logs[j]));
  }

  /** With a non-negative scale, elevation is non-negative and follows the value. */
  lemma ElevationMonotone(dfYear: seq<MergedRow>, metric: MetricKind, scale: real, lg: real -> real, i: nat, j: nat)
    requires IsLog10(lg)
    requires 0.0 <= scale
    requires i < |dfYear| && j < |dfYear|
    requires Coerce(MetricOf(dfYear[i], metric)) <= Coerce(MetricOf(dfYear[j], metric))
    ensures var t := ComputeValues(dfYear, metric, scale, lg);
      0.0 <= t[i].elevation <= t[j].elevation
  {
    var vs := ValueColumn(dfYear, metric);
    var logs := LogColumn(lg, vs);
    LogValueSign(lg, vs[i]);
    LogValueMonotone(lg, vs[i], vs[j]);
    ElevationOrder(logs[i], logs[j], scale);
    ValuesAt(dfYear, metric, scale, lg, i);
    ValuesAt(dfYear, metric, scale, lg, j);
  }

  lemma ElevationOrder(x: real, y: real, scale: real)
    requires 0.0 <= x <= y && 0.0 <= scale
    ensures 0.0 <= Elevation(x, scale) <= Elevation(y, scale)
  {
    MulNonNeg(x, scale);
    MulNonNeg(y - x, scale);
    assert y * scale == x * scale + (y - x) * scale;
  }

  /** A positive value strictly between two other positive values of the
      table is normalised strictly inside (0, 1): the outliers set the ends
      of the range and the rest falls between them. */
  lemma MiddleStrictlyInside(dfYear: seq<MergedRow>, metric: MetricKind, lg: real -> real, i: nat, j: nat, k: nat)
    requires IsLog10(lg)
    requires i < |dfYear| && j < |dfYear| && k < |dfYear|
    requires 0.0 < Coerce(MetricOf(dfYear[i], metric)) < Coerce(MetricOf(dfYear[j], metric))
    requires Coerce(MetricOf(dfYear[j], metric)) < Coerce(MetricOf(dfYear[k], metric))
    ensures var logs := LogColumn(lg, ValueColumn(dfYear, metric));
      0.0 < Normalize(ValueBounds(dfYear, metric, lg), logs[j]) < 1.0
  {
    var vs := ValueColumn(dfYear, metric);
    var logs := LogColumn(lg, vs);
    var b := ValueBounds(dfYear, metric, lg);
    LogValueSign(lg, vs[i]);
    LogValueMonotone(lg, vs[i], vs[j]);
    LogValueMonotone(lg, vs[j], vs[k]);
    assert b.vmin <= logs[i] < logs[j] < logs[k] <= b.vmax;
  }

  /** The per-country data kept in the lookup. */
  datatype Entry = Entry(value: real, elevation: real, fillColor: seq<int>)

  function EntryOf(r: ValueRow): Entry {
    Entry(r.value, r.elevation, r.fillColor)
  }

  ghost predicate UniqueKeys(t: seq<ValueRow>) {
    forall i, j :: 0 <= i < j < |t| ==> t[i].iso3 != t[j].iso3
  }

  /** `values.set_index("iso3")[...].to_dict("index")`, for a table whose
      iso3 values are distinct (pandas refuses a repeated index here). */
  function BuildLookup(t: seq<ValueRow>): (m: map<string, Entry>)
    requires UniqueKeys(t)
    ensures forall key :: key in m <==> exists i :: 0 <= i < |t| && t[i].iso3 == key
    ensures forall i :: 0 <= i < |t| ==> t[i].iso3 in m && m[t[i].iso3] == EntryOf(t[i])
  {
    if t == [] then map[]
    else
      var m := BuildLookup(t[..|t| - 1]);
      BuildLookupStep(t, t[..|t| - 1], m);
      m[t[|t| - 1].iso3 := EntryOf(t[|t| - 1])]
  }

  /** Adding the last row to the lookup of the rows before it. */
  lemma BuildLookupStep(t: seq<ValueRow>, p: seq<ValueRow>, m: map<string, Entry>)
    requires |t| > 0 && UniqueKeys(t) && p == t[..|t| - 1]
    requires forall key :: key in m <==> exists i :: 0 <= i < |p| && p[i].iso3 == key
    requires forall i :: 0 <= i < |p| ==> p[i].iso3 in m && m[p[i].iso3] == EntryOf(p[i])
    ensures var m' := m[t[|t| - 1].iso3 := EntryOf(t[|t| - 1])];
      (forall key :: key in m' <==> exists i :: 0 <= i < |t| && t[i].iso3 == key) &&
      (forall i :: 0 <= i < |t| ==> t[i].iso3 in m' && m'[t[i].iso3] == EntryOf(t[i]))
  {
    var n := |t| - 1;
    var m' := m[t[n].iso3 := EntryOf(t[n])];
    forall key | key in m'
      ensures exists i :: 0 <= i < |t| && t[i].iso3 == key
    {
      if key == t[n].iso3 {
        assert t[n].iso3 == key;
      } else {
        var i :| 0 <= i < n && p[i].iso3 == key;
        assert t[i].iso3 == key;
      }
    }
    forall i | 0 <= i < |t|
      ensures t[i].iso3 in m' && m'[t[i].iso3] == EntryOf(t[i])
    {
      if i < n {
        assert p[i] == t[i];
        assert t[i].iso3 != t[n].iso3;
      }
    }
  }

  ghost predicate UniqueIso3(dfYear: seq<MergedRow>) {
    forall i, j :: 0 <= i < j < |dfYear| ==> dfYear[i].iso3 != dfYear[j].iso3
  }

  /** The lookup `attach_metric_to_geojson` builds from `df_year`. */
  function Lookup(dfYear: seq<MergedRow>, metric: MetricKind, scale: real, lg: real -> real): (m: map<string, Entry>)
    requires UniqueIso3(dfYear)
    ensures forall key :: key in m <==> exists i :: 0 <= i < |dfYear| && dfYear[i].iso3 == key
    ensures forall i :: 0 <= i < |dfYear| ==>
      dfYear[i].iso3 in m && m[dfYear[i].iso3] == EntryOf(ComputeValues(dfYear, metric, scale, lg)[i])
  {
    BuildLookup(ComputeValues(dfYear, metric, scale, lg))
  }
}
