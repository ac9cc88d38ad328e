/** The menu-bar surfaces (frontend/src/components/menu-bar-item.tsx): the
    tray title in its six display modes, the spark-glyph ramp, VRAM in GiB,
    the percentages the title and the dropdown derive from the primary GPU,
    and the dropdown's mini-bar label. */
module MenuBar {
  import opened Text
  import opened Numbers
  import opened Telemetry
  import MetricBar

  datatype Mode = Minimal | Compact | Standard | Spark | Multi | Graphic

  const Degree: char := '\U{00B0}'
  const MiddleDot: char := '\U{00B7}'
  const BoxBar: char := '\U{2502}'

  /** The eight block glyphs U+2581 to U+2588, lowest first. */
  const SparkRamp: string := "\U{2581}\U{2582}\U{2583}\U{2584}\U{2585}\U{2586}\U{2587}\U{2588}"

  const IdleTitle: string := "NVSmiBar"
  const WaitingTitle: string := "NV \U{00B7}\U{00B7}\U{00B7}"
  const ErrorTitle: string := "NV \U{26A0}"

  /** `v` limited to the range 0..100. */
  function ClampPercent(v: int): (c: int)
    ensures 0 <= c <= 100
    ensures 0 <= v <= 100 ==> c == v
    ensures v < 0 ==> c == 0
    ensures v > 100 ==> c == 100
  {
    if v < 0 then 0 else if v > 100 then 100 else v
  }

  /** Which of the eight glyphs a percentage selects: the eighth of the range
      the clamped value falls in, 100 itself sharing the top glyph. */
  function SparkIndex(v: int): (i: nat)
    ensures i < 8
    ensures ClampPercent(v) < 100 ==> 100 * i <= 8 * ClampPercent(v) < 100 * (i + 1)
    ensures ClampPercent(v) == 100 ==> i == 7
  {
    var i := ClampPercent(v) * 8 / 100;
    if i > 7 then 7 else i
  }

  /** The glyph for a percentage. */
  function SparkChar(v: int): (g: char)
    ensures g in SparkRamp
    ensures g == SparkRamp[SparkIndex(v)]
  {
    SparkRamp[SparkIndex(v)]
  }

  /** A higher percentage never draws a lower glyph. */
  lemma SparkCharMonotone(v1: int, v2: int)
    requires v1 <= v2
    ensures SparkIndex(v1) <= SparkIndex(v2)
    ensures SparkChar(v1) <= SparkChar(v2)
  {
    var c1, c2 := ClampPercent(v1), ClampPercent(v2);
    assert c1 <= c2;
    DivMonotone(c1 * 8, c2 * 8, 100);
    var i1, i2 := SparkIndex(v1), SparkIndex(v2);
    assert forall a, b :: 0 <= a <= b < 8 ==> SparkRamp[a] <= SparkRamp[b];
  }

  lemma DivMonotone(a: int, b: int, d: int)
    requires 0 <= a <= b && d > 0
    ensures a / d <= b / d
  {
    if a / d > b / d {
      assert d * (a / d) >= d * (b / d + 1) by { MulMonotone(d, b / d + 1, a / d); }
    }
  }

  lemma MulMonotone(d: int, x: int, y: int)
    requires d > 0 && x <= y
    ensures d * x <= d * y
  {
  }

  /** VRAM in use as a percentage of the total, rounded as `Math.round`
      rounds; 0 when the total is unknown or zero. */
  function MemPct(g: Gpu): (p: int)
    ensures g.memTotal <= 0 ==> p == 0
    ensures g.memTotal > 0 ==> 2 * g.memTotal * p <= 200 * g.memUsed + g.memTotal < 2 * g.memTotal * (p + 1)
  {
    if g.memTotal > 0 then RoundDiv(100 * g.memUsed, g.memTotal) else 0
  }

  /** Power draw as a percentage of the limit; a negative (unknown) draw counts
      as zero and a non-positive limit gives 0. */
  function PowerPct(g: Gpu): (p: int)
    ensures g.powerLimit <= 0 ==> p == 0
    ensures g.powerDraw < 0 ==> p == 0
    ensures g.powerLimit > 0 && g.powerDraw >= 0 ==>
              2 * g.powerLimit * p <= 200 * g.powerDraw + g.powerLimit < 2 * g.powerLimit * (p + 1)
  {
    var draw := if g.powerDraw > 0 then g.powerDraw else 0;
    if g.powerLimit > 0 then RoundDiv(100 * draw, g.powerLimit) else 0
  }

  /** Tenths of a GiB nearest to `mib` MiB, halves rounded up. */
  function VramTenths(mib: int): (t: nat)
    requires mib >= 0
    ensures 1024 * (2 * t - 1) <= 20 * mib < 1024 * (2 * t + 1)
  {
    RoundDiv(10 * mib, 1024)
  }

  /** `t` tenths written with one decimal, as `toFixed(1)` writes them. */
  function FixedOne(t: nat): (r: string)
    ensures |r| >= 3 && r[|r| - 2] == '.'
    ensures AllDigits(r[..|r| - 2]) && IsDigit(r[|r| - 1])
    ensures 10 * DigitsValue(r[..|r| - 2]) + DigitValue(r[|r| - 1]) == t
    ensures |r| > 3 ==> r[0] != '0'
  {
    var whole := NatToString(t / 10);
    var r := whole + "." + [DigitChar(t % 10)];
    assert r[..|r| - 2] == whole;
    r
  }

  /** VRAM in GiB with one decimal, or `--` for an unknown (negative) amount.
      The decimal text denotes the tenth nearest to mib/1024. */
  function VramGB(mib: int): (r: string)
    ensures mib < 0 <==> r == "--"
    ensures mib >= 0 ==>
              && |r| >= 3 && r[|r| - 2] == '.'
              && AllDigits(r[..|r| - 2]) && IsDigit(r[|r| - 1])
              && var t := 10 * DigitsValue(r[..|r| - 2]) + DigitValue(r[|r| - 1]);
                 1024 * (2 * t - 1) <= 20 * mib < 1024 * (2 * t + 1)
    ensures mib >= 0 && |r| > 3 ==> r[0] != '0'
  {
    if mib < 0 then "--" else FixedOne(VramTenths(mib))
  }

  /** 10000 MiB is shown as 9.8 GiB. */
  lemma VramGBExample()
    ensures VramGB(10000) == "9.8"
  {
    assert VramTenths(10000) == 98;
    assert NatToString(9) == "9";
    assert FixedOne(98) == "9" + "." + [DigitChar(8)];
  }

  /** One GPU in `multi` mode: `G{index}:{temp}°·{util}%`. */
  function Segment(g: Gpu): (r: string)
    ensures |r| > 0 && r[0] == 'G' && r[|r| - 1] == '%'
    ensures BoxBar !in r
  {
    var r := "G" + IntToString(g.index) + ":" + IntToString(g.temp) + [Degree, MiddleDot]
             + IntToString(g.util) + "%";
    IntToStringAlphabet(g.index);
    IntToStringAlphabet(g.temp);
    IntToStringAlphabet(g.util);
    r
  }

  /** The `multi` segments, one per GPU in array order. */
  function Segments(gpus: seq<Gpu>): (r: seq<string>)
    ensures |r| == |gpus|
    ensures forall i :: 0 <= i < |gpus| ==> r[i] == Segment(gpus[i])
  {
    seq(|gpus|, i requires 0 <= i < |gpus| => Segment(gpus[i]))
  }

  /** The title text for a connected session with at least one GPU. */
  function ConnectedValue(gpus: seq<Gpu>, mode: Mode): string
    requires |gpus| > 0
  {
    var g := gpus[0];
    var temp := IntToString(g.temp) + [Degree];
    var util := IntToString(g.util) + "%";
    match mode
    case Minimal => temp
    case Compact => temp + " \U{00B7} " + util
    case Standard => temp + " \U{00B7} " + util + " \U{00B7} " + VramGB(g.memUsed) + "G"
    case Spark => [SparkChar(g.util), SparkChar(MemPct(g)), SparkChar(PowerPct(g))] + " " + temp
    case Multi => Join(Segments(gpus), " \U{2502} ")
    case Graphic => temp + " \U{00B7} " + util + " | " + VramGB(g.memUsed) + "/" + VramGB(g.memTotal) + "G"
  }

  /** The tray title. Idle, connecting and error show fixed text whatever the
      GPU list; a live or stale session without GPUs shows the connecting text;
      a stale title is the live title followed by ` !`. */
  function FormatTrayTitle(gpus: seq<Gpu>, status: ConnStatus, mode: Mode): (r: string)
    ensures status == Idle ==> r == IdleTitle
    ensures status == Connecting ==> r == WaitingTitle
    ensures status == Error ==> r == ErrorTitle
    ensures (status == Live || status == Stale) && |gpus| == 0 ==> r == WaitingTitle
    ensures status == Stale && |gpus| > 0 ==> r == ConnectedValue(gpus, mode) + " !"
    ensures status == Live && |gpus| > 0 ==> r == ConnectedValue(gpus, mode)
  {
    match status
    case Idle => IdleTitle
    case Connecting => WaitingTitle
    case Error => ErrorTitle
    case _ =>
      if |gpus| == 0 then WaitingTitle
      else
        var value := ConnectedValue(gpus, mode);
        if status == Stale then value + " !" else value
  }

  /** In every mode with GPUs present, the stale title is the live title with
      ` !` appended. */
  lemma StaleMarksLiveTitle(gpus: seq<Gpu>, mode: Mode)
    requires |gpus| > 0
    ensures FormatTrayTitle(gpus, Stale, mode) == FormatTrayTitle(gpus, Live, mode) + " !"
  {
  }

  /** `minimal` depends on nothing but the primary GPU's temperature. */
  lemma MinimalShowsOnlyPrimaryTemp(a: seq<Gpu>, b: seq<Gpu>, status: ConnStatus)
    requires |a| > 0 && |b| > 0
    requires a[0].temp == b[0].temp
    ensures FormatTrayTitle(a, status, Minimal) == FormatTrayTitle(b, status, Minimal)
  {
  }

  /** The title prints raw numbers: an unknown temperature reads `-1°`. */
  lemma UnknownTemperaturePrintedRaw(g: Gpu)
    requires g.temp == -1
    ensures FormatTrayTitle([g], Live, Minimal) == "-1\U{00B0}"
  {
    assert NatToString(1) == "1";
  }

  /** A one-GPU title in standard mode. */
  lemma StandardExample()
    ensures FormatTrayTitle([Gpu(0, "", 95, 72, 10000, 12000, 60, 250, 300, "", "")], Live, Standard)
            == "72\U{00B0} \U{00B7} 95% \U{00B7} 9.8G"
  {
    VramGBExample();
    assert NatToString(72) == "72" by { assert NatToString(7) == "7"; }
    assert NatToString(95) == "95" by { assert NatToString(9) == "9"; }
  }

  /** Pieces of the `multi` text between box bars, with the separator's padding
      spaces kept: a trailing space on all but the last, a leading one on all
      but the first (when `first`). */
  function Padded(parts: seq<string>, first: bool): (r: seq<string>)
    ensures |r| == |parts|
    ensures forall i :: 0 <= i < |parts| ==>
              r[i] == (if i == 0 && first then "" else " ") + parts[i] + (if i < |parts| - 1 then " " else "")
  {
    if |parts| == 0 then []
    else [(if first then "" else " ") + parts[0] + (if |parts| > 1 then " " else "")] + Padded(parts[1..], false)
  }

  lemma {:induction false} JoinPadded(parts: seq<string>, first: bool)
    requires |parts| > 0
    ensures Join(Padded(parts, first), [BoxBar]) == (if first then "" else " ") + Join(parts, " \U{2502} ")
    decreases |parts|
  {
    if |parts| > 1 {
      JoinPadded(parts[1..], false);
      var p := Padded(parts, first);
      assert p[1..] == Padded(parts[1..], false);
    }
  }

  /** `multi` emits one segment per GPU, in array order: cutting the title at
      its box bars gives exactly the segments, padded by the separator's
      spaces. */
  lemma {:induction false} MultiSegmentsInOrder(gpus: seq<Gpu>)
    requires |gpus| > 0
    ensures var pieces := Split(FormatTrayTitle(gpus, Live, Multi), BoxBar);
            && |pieces| == |gpus|
            && forall i :: 0 <= i < |gpus| ==>
                 pieces[i] == (if i == 0 then "" else " ") + Segment(gpus[i]) + (if i < |gpus| - 1 then " " else "")
  {
    MultiTitleIsJoin(gpus);
    SplitPadded(Segments(gpus));
  }

  /** Cutting segments joined by the padded box bar at the bars. */
  lemma {:induction false} SplitPadded(segs: seq<string>)
    requires |segs| > 0
    requires forall i :: 0 <= i < |segs| ==> BoxBar !in segs[i]
    ensures Split(Join(segs, " \U{2502} "), BoxBar) == Padded(segs, true)
  {
    var padded := Padded(segs, true);
    JoinPadded(segs, true);
    forall i | 0 <= i < |padded| ensures BoxBar !in padded[i] {
      var lead: string := if i == 0 then "" else " ";
      var trail: string := if i < |segs| - 1 then " " else "";
      assert padded[i] == lead + segs[i] + trail;
      assert BoxBar !in lead && BoxBar !in trail && BoxBar !in segs[i];
    }
    SplitJoin(padded, BoxBar);
    assert "" + Join(segs, " \U{2502} ") == Join(segs, " \U{2502} ");
  }

  lemma MultiTitleIsJoin(gpus: seq<Gpu>)
    requires |gpus| > 0
    ensures FormatTrayTitle(gpus, Live, Multi) == Join(Segments(gpus), " \U{2502} ")
  {
    assert ConnectedValue(gpus, Multi) == Join(Segments(gpus), " \U{2502} ");
  }

  /** Math.round on an exact real: halves rounded up. */
  function RoundReal(x: real): int
  {
    (x + 0.5).Floor
  }

  /** The dropdown mini-bar's label: the rounded fill percentage, or `--` for
      an unknown reading. For an unclamped bar it is the same rounded
      percentage `MemPct` computes with integers. */
  function MiniBarLabel(value: int, max: int): (r: string)
    ensures value < 0 <==> r == "--"
    ensures value >= 0 && max <= 0 ==> r == "0%"
    ensures value >= max > 0 ==> r == "100%"
    ensures 0 <= value <= max && max > 0 ==> r == IntToString(RoundDiv(100 * value, max)) + "%"
  {
    if value >= 0 then
      var pct := MetricBar.Pct(value, max);
      PctRoundedEmpty(value, max);
      PctRoundedFull(value, max);
      PctRoundedRatio(value, max);
      var r := IntToString(RoundReal(pct)) + "%";
      assert r[|r| - 1] == '%';
      r
    else "--"
  }

  /** Without a maximum the rounded percentage is 0. */
  lemma PctRoundedEmpty(value: int, max: int)
    ensures value >= 0 && max <= 0 ==> IntToString(RoundReal(MetricBar.Pct(value, max))) == "0"
  {
    if value >= 0 && max <= 0 {
      assert RoundReal(MetricBar.Pct(value, max)) == 0;
      assert IntToString(0) == "0";
    }
  }

  /** At or over the maximum the rounded percentage is 100. */
  lemma PctRoundedFull(value: int, max: int)
    ensures value >= max > 0 ==> IntToString(RoundReal(MetricBar.Pct(value, max))) == "100"
  {
    if value >= max > 0 {
      assert RoundReal(MetricBar.Pct(value, max)) == 100;
      HundredText();
    }
  }

  /** In between, the rounded percentage is the ratio rounded half up. */
  lemma PctRoundedRatio(value: int, max: int)
    ensures 0 <= value <= max && max > 0 ==> RoundReal(MetricBar.Pct(value, max)) == RoundDiv(100 * value, max)
  {
    if 0 <= value <= max && max > 0 {
      RoundRealOfRatio(MetricBar.Pct(value, max), value, max);
    }
  }

  lemma HundredText()
    ensures IntToString(100) == "100"
  {
    assert NatToString(100) == "100" by { assert NatToString(10) == "10" by { assert NatToString(1) == "1"; } }
  }

  lemma RoundRealOfRatio(x: real, n: int, d: int)
    requires d > 0 && x * (d as real) == 100.0 * (n as real)
    ensures RoundReal(x) == RoundDiv(100 * n, d)
  {
    var r := RoundDiv(100 * n, d);
    var k := 2.0 * (d as real);
    var y := x + 0.5;
    var m, lo, hi := 200 * n + d, 2 * d * r, 2 * d * (r + 1);
    assert y * k == m as real by { HalfUpScaled(x, d as real, n as real); }
    assert lo <= m < hi;
    assert ((2 * d) as real) == k;
    assert (r as real) * k == lo as real by { CastMul(2 * d, r); }
    assert ((r + 1) as real) * k == hi as real by { CastMul(2 * d, r + 1); }
    RealScale(k, r as real, y, (r + 1) as real, lo as real, m as real, hi as real);
  }

  lemma HalfUpScaled(x: real, d: real, n: real)
    requires x * d == 100.0 * n
    ensures (x + 0.5) * (2.0 * d) == 200.0 * n + d
  {
    assert (x + 0.5) * (2.0 * d) == 2.0 * (x * d) + d;
  }

  lemma CastMul(a: int, b: int)
    ensures (a * b) as real == (a as real) * (b as real)
  {
  }

  lemma RealScale(k: real, a: real, b: real, c: real, ak: real, bk: real, ck: real)
    requires k > 0.0 && a * k == ak && b * k == bk && c * k == ck
    requires ak <= bk < ck
    ensures a <= b < c
  {
  }

}
