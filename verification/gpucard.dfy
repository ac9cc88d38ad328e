/** The per-GPU detail card (frontend/src/components/gpu-card.tsx): the colour
    tiers for temperature and utilisation, the VRAM percentage, and the short
    display name. The card's `fmtVal` is `Telemetry.FmtVal`. */
module GpuCard {
  import opened Text
  import opened Numbers
  import opened Telemetry
  import MenuBar

  /** Text colour for a temperature: muted when unknown, otherwise the tray's
      three tiers with warning 70 and critical 85. */
  function TempColor(temp: int): (t: Tier)
    ensures temp < 0 <==> t == Muted
    ensures temp >= 0 ==> t == Threshold(temp as real, 70.0, 85.0)
  {
    if temp < 0 then Muted
    else if temp >= 85 then Red
    else if temp >= 70 then Amber
    else Primary
  }

  /** Badge background for a temperature; always the tier of `TempColor`. */
  function TempBg(temp: int): (t: Tier)
    ensures t == TempColor(temp)
  {
    if temp < 0 then Muted
    else if temp >= 85 then Red
    else if temp >= 70 then Amber
    else Primary
  }

  /** Text colour for utilisation: muted when unknown, otherwise the tray's
      three tiers with warning 70 and critical 90. */
  function UtilColor(util: int): (t: Tier)
    ensures util < 0 <==> t == Muted
    ensures util >= 0 ==> t == Threshold(util as real, 70.0, 90.0)
  {
    if util < 0 then Muted
    else if util >= 90 then Red
    else if util >= 70 then Amber
    else Primary
  }

  /** Badge background for utilisation; always the tier of `UtilColor`. */
  function UtilBg(util: int): (t: Tier)
    ensures t == UtilColor(util)
  {
    if util < 0 then Muted
    else if util >= 90 then Red
    else if util >= 70 then Amber
    else Primary
  }

  /** `value` as a rounded percentage of `total`; 0 for an unknown value or a
      non-positive total. */
  function AsPercent(value: int, total: int): (p: int)
    ensures value < 0 || total <= 0 ==> p == 0
    ensures value >= 0 && total > 0 ==> 2 * total * p <= 200 * value + total < 2 * total * (p + 1)
  {
    if value < 0 || total <= 0 then 0 else RoundDiv(100 * value, total)
  }

  /** Whenever the VRAM in use is known, the card's percentage is the one the
      tray title computes for the same GPU. */
  lemma AsPercentAgreesWithTray(g: Gpu)
    requires g.memUsed >= 0
    ensures AsPercent(g.memUsed, g.memTotal) == MenuBar.MemPct(g)
  {
  }

  function AsciiUpper(c: char): char
  {
    if 'a' <= c <= 'z' then (c as int - 32) as char else c
  }

  /** The name begins with "NVIDIA" in any mix of ASCII letter case (the `i`
      flag of a non-Unicode JavaScript regular expression). */
  predicate HasVendorPrefix(name: string)
  {
    |name| >= 6 && forall k :: 0 <= k < 6 ==> AsciiUpper(name[k]) == "NVIDIA"[k]
  }

  /** The card's title: the name without a leading "NVIDIA" and the whitespace
      after it; names without that prefix, or with the prefix but no
      whitespace after it, are shown unchanged. */
  function ShortName(name: string): (r: string)
    ensures |r| <= |name| && r == name[|name| - |r|..]
    ensures r != name <==> HasVendorPrefix(name) && |name| > 6 && IsJsSpace(name[6])
    ensures r != name ==> (|r| == 0 || !IsJsSpace(r[0]))
    ensures r != name ==> forall k :: 6 <= k < |name| - |r| ==> IsJsSpace(name[k])
  {
    if HasVendorPrefix(name) && |name| > 6 && IsJsSpace(name[6]) then
      var rest := name[6..];
      var n := LeadingCount(rest, IsJsSpace);
      assert forall k :: 6 <= k < 6 + n ==> IsJsSpace(name[k]) by {
        forall k | 6 <= k < 6 + n ensures IsJsSpace(name[k]) { assert rest[k - 6] == name[k]; }
      }
      name[6 + n..]
    else name
  }

  /** Stripping the vendor from "NVIDIA", some whitespace and a model name
      leaves exactly the model name. */
  lemma ShortNameStripsVendor(vendor: string, gap: string, model: string)
    requires |vendor| == 6 && HasVendorPrefix(vendor)
    requires |gap| > 0 && forall k :: 0 <= k < |gap| ==> IsJsSpace(gap[k])
    requires |model| == 0 || !IsJsSpace(model[0])
    ensures ShortName(vendor + gap + model) == model
  {
    var name := vendor + gap + model;
    assert HasVendorPrefix(name) by {
      forall k | 0 <= k < 6 ensures AsciiUpper(name[k]) == "NVIDIA"[k] { assert name[k] == vendor[k]; }
    }
    assert name[6] == gap[0];
    var rest := name[6..];
    assert rest == gap + model;
    LeadingCountSkipsGap(gap, model);
    assert name[6 + |gap|..] == model;
  }

  lemma {:induction false} LeadingCountSkipsGap(gap: string, model: string)
    requires forall k :: 0 <= k < |gap| ==> IsJsSpace(gap[k])
    requires |model| == 0 || !IsJsSpace(model[0])
    ensures LeadingCount(gap + model, IsJsSpace) == |gap|
    decreases |gap|
  {
    if |gap| > 0 {
      assert (gap + model)[1..] == gap[1..] + model;
      LeadingCountSkipsGap(gap[1..], model);
    } else {
      assert gap + model == model;
    }
  }
}
