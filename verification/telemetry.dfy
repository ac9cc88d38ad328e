/** The records shared by the back end and the front end: one GPU's reading as
    `nvidia-smi` reports it (the Go `GPU` struct and the TypeScript `GpuData`
    interface), the connection status the front end displays, the colour tier
    every severity helper selects, and the two helpers the formatters share. */
module Telemetry {
  import opened Numbers

  /** One GPU. A numeric field of -1 means "not reported"; an empty version
      string means the same for the version fields. */
  datatype Gpu = Gpu(
    index: int,
    name: string,
    util: int,
    temp: int,
    memUsed: int,
    memTotal: int,
    fanSpeed: int,
    powerDraw: int,
    powerLimit: int,
    driverVersion: string,
    cudaVersion: string)

  datatype ConnStatus = Idle | Connecting | Live | Stale | Error

  /** The colour a reading is drawn in. The source spells each tier as a CSS
      class (`text-red-400`, `bg-amber-500/15`, ...); only the choice of tier
      is modelled. */
  datatype Tier = Muted | Primary | Amber | Red

  /** Severity order of the three tiers a threshold chooses from. */
  function Rank(t: Tier): nat
  {
    match t
    case Muted => 0
    case Primary => 0
    case Amber => 1
    case Red => 2
  }

  /** Three-tier severity of `v` against a warning and a critical bound; the
      critical bound is compared first. */
  function Threshold(v: real, warn: real, crit: real): (t: Tier)
    ensures t != Muted
    ensures t == Red <==> v >= crit
    ensures t == Amber <==> warn <= v < crit
    ensures t == Primary <==> v < warn && v < crit
  {
    if v >= crit then Red
    else if v >= warn then Amber
    else Primary
  }

  /** With ordered bounds a larger reading is never drawn in a milder tier. */
  lemma ThresholdMonotone(v1: real, v2: real, warn: real, crit: real)
    requires v1 <= v2
    requires warn <= crit
    ensures Rank(Threshold(v1, warn, crit)) <= Rank(Threshold(v2, warn, crit))
  {
  }

  /** A reading with an optional suffix, or `--` when it is not reported. */
  function FmtVal(v: int, suffix: string): (r: string)
    ensures v < 0 <==> r == "--"
    ensures v >= 0 ==> |r| > |suffix| && r[|r| - |suffix|..] == suffix
    ensures v >= 0 ==> var digits := r[..|r| - |suffix|];
                       AllDigits(digits) && DigitsValue(digits) == v
    ensures v >= 0 && |r| > |suffix| + 1 ==> r[0] != '0'
  {
    if v < 0 then "--"
    else
      var r := NatToString(v) + suffix;
      assert r[..|r| - |suffix|] == NatToString(v);
      assert r[0] == NatToString(v)[0] && IsDigit(r[0]);
      r
  }
}
