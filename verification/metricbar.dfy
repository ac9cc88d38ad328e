/** The detail card's metric bar (frontend/src/components/metric-bar.tsx): the
    bar's fill percentage, its colour, and the `value/max` text beside it. */
module MetricBar {
  import opened Text
  import opened Numbers
  import opened Telemetry

  /** A bar's warning and critical bounds, in percent. */
  datatype Thresholds = Thresholds(warn: real, critical: real)

  /** Fill of a bar for `value` out of `max`, in percent. Unknown readings and
      non-positive denominators give an empty bar. */
  function Pct(value: int, max: int): (r: real)
    ensures 0.0 <= r <= 100.0
    ensures value < 0 || max <= 0 ==> r == 0.0
    ensures 0 <= value <= max && max > 0 ==> r * (max as real) == 100.0 * (value as real)
    ensures value >= max > 0 ==> r == 100.0
  {
    if value >= 0 && max > 0 then
      var ratio := (value as real) / (max as real) * 100.0;
      var capped := if ratio < 100.0 then ratio else 100.0;
      if capped > 0.0 then capped else 0.0
    else 0.0
  }

  /** Colour of a bar filled to `percent`: primary without thresholds,
      otherwise the three-tier severity the tray title also uses. */
  function GetBarColor(percent: real, thresholds: Option<Thresholds>): (t: Tier)
    ensures thresholds.None? ==> t == Primary
    ensures thresholds.Some? ==> t == Threshold(percent, thresholds.value.warn, thresholds.value.critical)
  {
    match thresholds
    case None => Primary
    case Some(th) =>
      if percent >= th.critical then Red
      else if percent >= th.warn then Amber
      else Primary
  }

  /** The reading with its unit, or `--` when not reported. */
  function FmtMetric(value: int, unit: Option<string>): (r: string)
    ensures value < 0 <==> r == "--"
    ensures value >= 0 ==> r == IntToString(value) + unit.GetOr("")
  {
    FmtVal(value, unit.GetOr(""))
  }

  /** The whole text beside the bar: the reading, then `/max` and the unit
      again, the latter only when the reading is known and `max` positive. */
  function ValueText(value: int, max: int, unit: Option<string>): (r: string)
    ensures var head := FmtMetric(value, unit);
            |head| <= |r| && r[..|head|] == head
    ensures |r| > |FmtMetric(value, unit)| <==> value >= 0 && max > 0
    ensures value >= 0 && max > 0 ==>
              var tail := r[|FmtMetric(value, unit)|..];
              tail[0] == '/' && tail[1..] == IntToString(max) + unit.GetOr("")
  {
    var head := FmtMetric(value, unit);
    if value >= 0 && max > 0 then
      var tail := "/" + (IntToString(max) + unit.GetOr(""));
      var r := head + tail;
      assert |r| == |head| + |tail| > |head|;
      assert r[..|head|] == head && r[|head|..] == tail;
      assert tail[0] == '/' && tail[1..] == IntToString(max) + unit.GetOr("");
      r
    else head
  }
}
