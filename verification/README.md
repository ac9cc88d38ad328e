# NVSmiBar core in Dafny

NVSmiBar is a macOS menu-bar application. It runs `nvidia-smi` on a remote
machine over SSH, parses the CSV it prints, and shows the GPU readings as the
tray title and in a dropdown. The back end is written in Go and the front end
in React/TypeScript; the two are connected by Wails. The back end also finds
connections in the user's `~/.ssh/config` and checks for newer releases. The
front end keeps a list of saved connection profiles, one of which is active.

This project models the pure core of both halves as total Dafny functions over
integers, strings, sequences and maps, and proves properties about them.

| file | module | models |
|---|---|---|
| `text.dfy` | `Text` | Go and JavaScript string primitives: `strings.TrimSpace`, `String.prototype.trim` (whose whitespace sets differ), `strings.Split`, `join`, `strings.Fields`, and Go's `<` on strings |
| `numbers.dfy` | `Numbers` | decimal rendering, `strconv.Atoi` with its 64-bit range and the value it returns with an error, exact decimal literals, `math.Round`, `Math.round`, and `Number()` followed by `Number.isInteger` |
| `telemetry.dfy` | `Telemetry` | the GPU record shared by both halves, the connection status, the colour tier, the three-tier `threshold`, and `fmtVal` |
| `metricbar.dfy` | `MetricBar` | the detail card's bar: fill percentage, colour, and `value/max` text |
| `menubar.dfy` | `MenuBar` | `formatTrayTitle` in its six modes, with `sparkChar`, `vramGB`, the memory and power percentages, and the dropdown's mini-bar label |
| `gpucard.dfy` | `GpuCard` | the card's colour tiers, `asPercent`, and the vendor-prefix strip of the GPU name |
| `nvidiasmi.dfy` | `NvidiaSmi` | `parseOutput` and its field parsers, with a round trip from what `nvidia-smi` prints back to the GPU records |
| `sshconfig.dfy` | `SshConfig` | the ssh_config lexer (comments, directive split, value unquoting, keyword match), the `Host`-block fold with its de-duplication, and the final sort |
| `version.dfy` | `Version` | `isNewer`, the update check's dotted-numeric comparison |
| `appstate.dfy` | `AppState` | the front end's connection state: the active-connection lookup, the three back-end events, the active-connection effect, the input-box sync, connecting from the input box, deleting a profile, storage migration, and relative time |

Side effects become values. The clock (`Date.now()`), the fresh profile id and
the result of the back end's connection test are parameters. The
`SetConnection(target, port)` call of the active-connection effect is returned
beside the new state. Colours are modelled as the tier a CSS class stands for.

In these details the model follows the code:
- The tray title prints raw numbers, so an unreported temperature shows as
  `-1°`; only `vramGB` substitutes `--`.
- `multi` mode lists GPUs in array order.
- The error title is `NV ⚠`.
- A live or stale session with no GPUs shows `NV ···`, without the stale mark.
- `gpu:conn_meta` replaces the metadata whole.
- `gpu:error` keeps an existing error code and otherwise stores an empty one.

The ssh_config de-duplication key is a joined string, which has the defect
described under Findings. `SshConfig.ParseAsWritten` and
`SshConfig.DiscoverAsWritten` model the code as written. `SshConfig.Parse`,
`SshConfig.Discover` and the lemmas about them model the corrected program,
which de-duplicates on the connection itself.

## Model

| member | source | states |
|---|---|---|
| Text.Trim | ssh.go:130 | the trimmed text has no surrounding whitespace; it is empty exactly when the input is all whitespace; text without surrounding whitespace is unchanged |
| Text.TrimIsSlice | ssh.go:130 | the trimmed text is a slice of the input with only whitespace before and after it, so exactly a leading and a trailing whitespace run are removed |
| Text.TrimExact | ssh.go:130 | conversely, any slice with only whitespace outside it and no whitespace at its ends is the trimmed text, so `strings.TrimSpace(" ab ")` is `ab` |
| Text.TrimIdempotent | ssh.go:73 | trimming a trimmed line changes nothing |
| Text.Split | ssh.go:77 | `strings.Split` yields at least one piece, no piece holds the separator, and text without it is one piece |
| Text.SplitJoin | ssh.go:77 | splitting joined pieces that are free of the separator gives the pieces back |
| Text.JoinSplit | ssh.go:71 | joining the pieces of a split gives the text back |
| Text.Fields | ssh_config.go:136 | `strings.Fields` yields non-empty runs free of whitespace (their content and order are stated by the three lemmas below) |
| Text.FieldsStep | ssh_config.go:136 | fields are read left to right: after leading whitespace, the word up to the next whitespace or the end is the first field, followed by the fields of the rest |
| Text.FieldsSkipSpace | ssh_config.go:136 | leading whitespace does not change the fields |
| Text.FieldsOfJoin | ssh_config.go:136 | words joined by single spaces split back into exactly those words, in order |
| Text.FieldsBlank | ssh_config.go:136 | `strings.Fields` yields no field exactly for blank text |
| Text.FieldsOfWord | ssh_config.go:136 | a single word is a single field |
| Text.StrLessTransitive | ssh_config.go:46-54 | Go's string order is transitive |
| Text.StrLessTotal | ssh_config.go:46-54 | of two different strings one is smaller |
| Text.StrLessIrreflexive | ssh_config.go:46-54 | no string is smaller than itself |
| Numbers.NatToString | frontend/src/components/menu-bar-item.tsx:27 | a rendered number is digits without a superfluous leading zero and reads back as the number |
| Numbers.IntToString | frontend/src/components/menu-bar-item.tsx:278 | a rendered integer is its digits, with a minus sign exactly when negative, in the shortest form: no leading zero and no `-0` |
| Numbers.NatToStringOfDigits | frontend/src/components/menu-bar-item.tsx:27 | rendering is injective: a canonical digit string is the rendering of its value |
| Numbers.Atoi | ssh.go:137 | `strconv.Atoi` accepts an optional sign and digits, and fails outside the 64-bit range |
| Numbers.AtoiIntToString | ssh_config.go:99 | every 64-bit integer Go prints is read back by `Atoi` |
| Numbers.AtoiValue | app.go:121 | the value returned beside an `Atoi` error: the sign's 64-bit bound when the leading digits exceed 64 bits, even if other text follows them; otherwise 0 on bad syntax |
| Numbers.ScanUint64 | app.go:121 | `ParseUint`'s digit loop reports a range error exactly when the leading digits exceed 2^64 - 1, a value exactly for an all-digit text within range, and otherwise a syntax error |
| Numbers.ParseInt64 | app.go:121 | Go's `Atoi` written as its digit loop returns `AtoiValue`, and succeeds exactly when `Atoi` does |
| Numbers.AtoiOverflowIsError | app.go:121 | overflowing leading digits always make `Atoi` fail |
| Numbers.AtoiValueOverflowThenJunk | app.go:121 | more than 64 bits of digits followed by a non-digit read as the largest int64, or the smallest after a minus sign |
| Numbers.ParseDecimal | ssh.go:140 | plain digit strings read as themselves |
| Numbers.ParseDecimalAccepts | ssh.go:140-143 | a text is accepted exactly when, after an optional sign, it holds only digits and at most one point, with at least one digit; `abc`, `-`, `.` and `1.2.3` are errors |
| Numbers.ParseDecimalPoint | ssh.go:140 | a sign, digits, a point and digits read as the decimal of all the digits, negative exactly after `-`, scaled by the number of fraction digits |
| Numbers.ParseDecimalWhole | ssh.go:140 | a sign and digits read as that whole number, negative exactly after `-` |
| Numbers.RoundHalfAway | ssh.go:144 | `math.Round` gives the nearest integer, halves away from zero |
| Numbers.RoundDiv | frontend/src/components/gpu-card.tsx:51 | `Math.round(n/d)` gives the nearest integer, halves upward |
| Numbers.JsIntegerValue | frontend/src/App.tsx:283-284 | blank text is the number 0, as `Number("")` is; text that is not a decimal literal is not an integer; an integer result is the exact value of the decimal the text denotes |
| Numbers.DecimalInteger | frontend/src/App.tsx:284 | `Number.isInteger` on an exact decimal: the integer it denotes when there is one, and none otherwise |
| Numbers.JsIntegerExact | frontend/src/App.tsx:283-284 | the result is `v` exactly when the text is blank and `v` is 0, or the text is a decimal literal whose exact value is `v` |
| Numbers.JsIntegerPlusSign | frontend/src/App.tsx:283-284 | `+22` reads as 22 |
| Numbers.JsIntegerZeroFraction | frontend/src/App.tsx:283-284 | `22.0` reads as 22 |
| Numbers.JsIntegerFraction | frontend/src/App.tsx:283-284 | `1.5` is not an integer |
| Numbers.JsIntegerWord | frontend/src/App.tsx:283-284 | `abc` is not a number |
| Numbers.JsIntegerBareSign | frontend/src/App.tsx:283-284 | a lone `-` is not a number |
| Numbers.JsIntegerOfDigits | frontend/src/App.tsx:283-284 | a digit string is the integer it denotes |
| Telemetry.Threshold | frontend/src/components/menu-bar-item.tsx:15-19 | exactly one of three tiers, with the critical bound compared first; `barColor` at lines 159-163 picks its tier the same way |
| Telemetry.ThresholdMonotone | frontend/src/components/menu-bar-item.tsx:15-19 | with ordered bounds, a larger reading never gets a milder tier |
| Telemetry.FmtVal | frontend/src/components/gpu-card.tsx:54-56 | `--` exactly for a negative reading; otherwise the digits, without a leading zero, read back as the reading, followed by the suffix |
| MetricBar.Pct | frontend/src/components/metric-bar.tsx:24 | the fill lies in 0..100; it is 0 for an unknown reading or a non-positive maximum, and is value/max as a percentage when not clamped |
| MetricBar.GetBarColor | frontend/src/components/metric-bar.tsx:11-16 | primary without thresholds, otherwise the three-tier choice with critical first |
| MetricBar.FmtMetric | frontend/src/components/metric-bar.tsx:18-21 | `--` exactly for a negative reading, otherwise the reading and the unit |
| MetricBar.ValueText | frontend/src/components/metric-bar.tsx:31-34 | the `/max` suffix appears if and only if the reading is known and the maximum positive |
| MenuBar.ClampPercent | frontend/src/components/menu-bar-item.tsx:10 | the value is limited to 0..100 and left alone inside it |
| MenuBar.SparkIndex | frontend/src/components/menu-bar-item.tsx:11 | the glyph index is the eighth of the range the clamped value falls in, 100 sharing the top glyph |
| MenuBar.SparkChar | frontend/src/components/menu-bar-item.tsx:9-13 | always one of the eight ramp glyphs |
| MenuBar.SparkCharMonotone | frontend/src/components/menu-bar-item.tsx:9-13 | a larger percentage never draws a lower glyph |
| MenuBar.MemPct | frontend/src/components/menu-bar-item.tsx:272 | VRAM use as a percentage rounded half up, 0 for a non-positive total |
| MenuBar.PowerPct | frontend/src/components/menu-bar-item.tsx:273 | power as a percentage of the limit, 0 for a non-positive limit, a negative draw counting as 0 |
| MenuBar.VramGB | frontend/src/components/menu-bar-item.tsx:21-24 | `--` exactly for a negative amount; otherwise one decimal, with no leading zero before the point except `0.x`, denoting the tenth of a GiB nearest to mib/1024 |
| MenuBar.VramGBExample | frontend/src/components/menu-bar-item.tsx:21-24 | 10000 MiB shows as `9.8` |
| MenuBar.Segment | frontend/src/components/menu-bar-item.tsx:290 | a `multi` segment starts with `G`, ends with `%` and holds no box bar |
| MenuBar.FormatTrayTitle | frontend/src/components/menu-bar-item.tsx:261-301 | idle, connecting and error give their fixed titles whatever the GPUs; live or stale without GPUs gives `NV ···`; stale is live followed by ` !` |
| MenuBar.StaleMarksLiveTitle | frontend/src/components/menu-bar-item.tsx:297-300 | in every mode, the stale title is the live title with ` !` appended |
| MenuBar.MinimalShowsOnlyPrimaryTemp | frontend/src/components/menu-bar-item.tsx:277-279 | `minimal` depends on nothing but the first GPU's temperature |
| MenuBar.UnknownTemperaturePrintedRaw | frontend/src/components/menu-bar-item.tsx:278 | an unreported temperature is printed as `-1°` |
| MenuBar.StandardExample | frontend/src/components/menu-bar-item.tsx:283-284 | `standard` shows temperature, utilisation and VRAM joined by ` · ` |
| MenuBar.MultiSegmentsInOrder | frontend/src/components/menu-bar-item.tsx:289-290 | cutting the `multi` title at its box bars gives one segment per GPU, in array order |
| MenuBar.MiniBarLabel | frontend/src/components/menu-bar-item.tsx:144-156 | `--` exactly for an unknown reading; otherwise the rounded clamped fill, which equals the integer rounding of value/max when not clamped |
| GpuCard.TempColor | frontend/src/components/gpu-card.tsx:21-26 | muted exactly for a negative temperature, otherwise the three tiers at 70 and 85 |
| GpuCard.TempBg | frontend/src/components/gpu-card.tsx:28-33 | always the tier `tempColor` picks |
| GpuCard.UtilColor | frontend/src/components/gpu-card.tsx:35-40 | muted exactly for a negative utilisation, otherwise the three tiers at 70 and 90 |
| GpuCard.UtilBg | frontend/src/components/gpu-card.tsx:42-47 | always the tier `utilColor` picks |
| GpuCard.AsPercent | frontend/src/components/gpu-card.tsx:49-52 | 0 for an unknown value or a non-positive total, otherwise the percentage rounded half up |
| GpuCard.AsPercentAgreesWithTray | frontend/src/components/gpu-card.tsx:60 | the card's VRAM percentage is the tray's whenever the use is known |
| GpuCard.ShortName | frontend/src/components/gpu-card.tsx:61 | the name loses a case-insensitive `NVIDIA` and the whitespace after it exactly when both are present, and is otherwise unchanged |
| GpuCard.ShortNameStripsVendor | frontend/src/components/gpu-card.tsx:61 | vendor, whitespace and model name give exactly the model name |
| NvidiaSmi.ParseNumber | ssh.go:137-144 | an integer token reads as itself; otherwise a decimal token is rounded half away from zero; a token neither reads is an error |
| NvidiaSmi.ParseRequiredInt | ssh.go:129-145 | blank or placeholder text (`n/a`, `[not supported]` in any case) is an error, anything else is read as a number |
| NvidiaSmi.ParseOptionalInt | ssh.go:147-163 | a missing column, or one whose field would be an error, gives -1 |
| NvidiaSmi.ParseOptionalString | ssh.go:165-174 | a missing, blank or placeholder column gives `""`, anything else its trimmed text |
| NvidiaSmi.ParseLine | ssh.go:77-80 | fewer than six comma-separated parts fail with the line itself; otherwise the parts are read as columns |
| NvidiaSmi.ParseColumns | ssh.go:81-120 | a line of six or more parts parses exactly when its five required columns are numbers; a success holds every required column as parsed, the name trimmed, fan, power and limit from the optional-number reader, the driver from the optional-text reader, and the CUDA version only when it was queried |
| NvidiaSmi.ParseColumnsError | ssh.go:81-101 | a failure names the leftmost required column that is not a number, with its untrimmed text, every required column before it being a number |
| NvidiaSmi.ParseLinesOk | ssh.go:71-127 | the parse succeeds exactly when every non-blank line parses, and then gives one GPU per line, in order |
| NvidiaSmi.ParseLinesSucceeds | ssh.go:71-127 | the parse succeeds exactly when every non-blank line parses |
| NvidiaSmi.ParseLinesValues | ssh.go:71-127 | a successful parse holds what each non-blank line parses to, in order |
| NvidiaSmi.ParseLinesFirstError | ssh.go:72-101 | a failed parse reports the error of the first non-blank line that fails |
| NvidiaSmi.ParseOutput | ssh.go:69-127 | a successful parse holds one GPU per non-blank line |
| NvidiaSmi.NotAvailableIsSentinel | ssh.go:134 | the placeholders are recognised in any letter case |
| NvidiaSmi.ParseNumberOneDecimal | ssh.go:140-144 | a one-decimal reading rounds to the nearest whole number, a trailing 5 upward |
| NvidiaSmi.RoundTenths | ssh.go:140-144 | rounding a one-decimal value goes up exactly from a tenth of 5 |
| NvidiaSmi.IntColumn | ssh.go:129-139 | an integer column, padded or not, reads back as the integer |
| NvidiaSmi.DecimalColumn | ssh.go:140-144 | a padded one-decimal column such as ` 210.3` reads as the rounded number |
| NvidiaSmi.ParsePrintedLine | ssh.go:77-124 | parsing the line printed for a reportable GPU gives that GPU back |
| NvidiaSmi.ParsePrintedOutput | ssh.go:69-127 | parsing a whole printed table gives every GPU back, in order |
| SshConfig.CommentCut | ssh_config.go:158-178 | the scan stops at the first `#` outside quotes, or at the end of the line |
| SshConfig.StripComments | ssh_config.go:158-178 | the result is a prefix of the line, cut at the first unquoted `#`; a line without `#` is unchanged |
| SshConfig.StripCommentsIdempotent | ssh_config.go:158-178 | stripping twice strips nothing more |
| SshConfig.CommentDropped | ssh_config.go:171-174 | whatever follows an unquoted `#` is dropped |
| SshConfig.SplitDirective | ssh_config.go:180-188 | the key holds no space or tab |
| SshConfig.SplitDirectiveFirstGap | ssh_config.go:180-188 | the line is split at its first space or tab into the trimmed text before it and the trimmed text from it on; without a gap the whole trimmed line is the key |
| SshConfig.SplitDirectiveNoGap | ssh_config.go:180-188 | a line without a space or tab is all key |
| SshConfig.SplitDirectiveJoin | ssh_config.go:180-188 | key, space and trimmed value split back into key and value |
| SshConfig.TrimValue | ssh_config.go:190-195 | trimmed, then at most one leading and one trailing double quote removed |
| SshConfig.TrimValueUnquotes | ssh_config.go:190-195 | quoting a value protects it: only the quotes come off |
| SshConfig.GoLower | ssh_config.go:126 | lower-casing keeps the length and works rune by rune |
| SshConfig.KeywordIgnoresCase | ssh_config.go:126 | keywords match in any mix of ASCII letter case |
| SshConfig.KeywordSpellings | ssh_config.go:126-145 | the five keywords the parser acts on are recognised |
| SshConfig.BlankLineHoldsNothing | ssh_config.go:116-124 | a blank line holds no directive |
| SshConfig.LineDirectiveOf | ssh_config.go:116-126 | keyword, space and value form a line holding that directive |
| SshConfig.Apply | ssh_config.go:137-151 | `HostName` and `User` set their unquoted values; a numeric `Port` sets the port and any other leaves it; the patterns never change |
| SshConfig.Target | ssh_config.go:91-97 | the target is `HostName` when set, else the pattern, prefixed by `User@` when a user is set |
| SshConfig.Flush | ssh_config.go:79-113 | flushing closes the open block |
| SshConfig.Lex | ssh_config.go:115-124 | one directive slot per line |
| SshConfig.OffersOf | ssh_config.go:83-110 | a block offers one connection for each eligible pattern and for nothing else: not empty, not `*`, no `!` prefix, no `*` or `?` |
| SshConfig.RunIsEmit | ssh_config.go:115-153 | the line loop plus the final flush is keep-first de-duplication of what the blocks offer, in block order |
| SshConfig.ParseWithIsEmit | ssh_config.go:79-153 | the parser of a whole file, stated blockwise |
| SshConfig.EmitProperties | ssh_config.go:99-110 | de-duplication keeps the seen set equal to the emitted keys, never emits a key twice, only appends, and takes every candidate's key |
| SshConfig.ParseWithProperties | ssh_config.go:79-153 | with either key, only offered connections are emitted, no key twice, and every offer's key is emitted |
| SshConfig.ParseOffersEachOnce | ssh_config.go:99-110 | in the corrected program, each connection the blocks offer is discovered exactly once, and nothing else is |
| SshConfig.ParsedConnection | ssh_config.go:83-110 | in the corrected program, a discovered connection is named after an eligible pattern of some block and targets where that block says |
| SshConfig.PatternDiscovered | ssh_config.go:83-110 | in the corrected program, every eligible pattern of every block is discovered |
| SshConfig.KeyCollisionDropsConnection | ssh_config.go:99-103 | two different connections share the joined key, and the source keeps only the first |
| SshConfig.TwoHostsParse | ssh_config.go:99-103 | in a two-block file, the second connection is kept exactly when its key differs from the first one's |
| SshConfig.BlocksFromCount | ssh_config.go:134-136 | every `Host` opens one block, the block open at the end is flushed too, and a block keeps its `Host` patterns |
| SshConfig.BlocksOfFile | ssh_config.go:134-153 | a file has one block per `Host` line |
| SshConfig.SettingsBeforeHostIgnored | ssh_config.go:137-151 | `HostName`, `User` and `Port` lines before the first `Host` change nothing |
| SshConfig.ConnLessTransitive | ssh_config.go:46-54 | the comparator is transitive |
| SshConfig.ConnLessTotal | ssh_config.go:46-54 | of two different connections one sorts first |
| SshConfig.ConnLessIrreflexive | ssh_config.go:46-54 | no connection sorts before itself |
| SshConfig.Insert | ssh_config.go:46-54 | inserting into a sorted list keeps it sorted and is a permutation |
| SshConfig.SortConns | ssh_config.go:46-54 | the sort gives a sorted permutation |
| SshConfig.DiscoverAsWrittenSorted | ssh_config.go:26-57 | as written, the returned list is strictly sorted by name, target and port and holds exactly the connections the joined-key parse keeps, each once: only offered connections, and one for every joined key an offer has |
| SshConfig.DiscoverAsWrittenDrops | ssh_config.go:99-103 | as written, the list returned for the colliding file lacks `(a, b\|c, 0)`, which the corrected program returns |
| SshConfig.DiscoverSortedAndComplete | ssh_config.go:26-57 | in the corrected program, the returned list is strictly sorted by name, target and port and holds each offered connection exactly once |
| SshConfig.DiscoverIsAnySort | ssh_config.go:46-54 | a sequence is the discovered list exactly when it is sorted by the comparator and a permutation of the parsed connections, so although `sort.Slice` is not stable its result is determined (stated for the corrected program) |
| Version.TrimV | app.go:117 | one leading `v` is removed, and only when present |
| Version.ComponentValues | app.go:118-124 | each component is the value `Atoi` returns, its error ignored: the sign's 64-bit bound for overflowing leading digits even when junk follows, otherwise 0 for text that is not a number |
| Version.Components | app.go:116-125 | a version always has at least one component |
| Version.IsNewer | app.go:112-136 | the result is the dotted-numeric order of the components, and always false against `dev` |
| Version.CompareComponents | app.go:127-135 | the loop decides at the first differing component and otherwise by length |
| Version.LexGreaterIrreflexive | app.go:127-135 | no list of components is newer than itself |
| Version.LexGreaterAsymmetric | app.go:127-135 | of two lists at most one is newer |
| Version.LexGreaterTransitive | app.go:127-135 | newer than newer is newer |
| Version.NewerIrreflexive | app.go:112-136 | no release is newer than itself |
| Version.NewerAsymmetric | app.go:112-136 | of two releases at most one is newer than the other |
| Version.NewerTransitive | app.go:112-136 | the order of releases is transitive |
| Version.ComponentsOfRender | app.go:116-125 | reading a rendered version, with or without `v`, gives its numbers back |
| Version.NewerOfRendered | app.go:112-136 | between rendered releases, newer is exactly the dotted-numeric order of their numbers |
| AppState.ActiveConnection | frontend/src/App.tsx:142-145 | the first profile with the active id; none exactly when no id is set or no profile has it |
| AppState.Lookup | frontend/src/App.tsx:142-145 | finds a profile exactly when some profile has the id, and then the first such one |
| AppState.OnGpuData | frontend/src/App.tsx:171-189 | readings replaced, inline error cleared, profiles with the active id marked successful, every other profile unchanged |
| AppState.OnGpuError | frontend/src/App.tsx:191-207 | inline error set, profiles with the active id marked failed, every other profile unchanged |
| AppState.OnConnMeta | frontend/src/App.tsx:209-211 | the metadata is replaced whole and nothing else changes |
| AppState.EventsKeepConnection | frontend/src/App.tsx:174-206 | readings and errors never change the id, target or port of the active connection, so they never restart the connection effect |
| AppState.DataMarksActive | frontend/src/App.tsx:174-188 | a reading marks the active profile successful with empty error fields |
| AppState.ErrorMarksActive | frontend/src/App.tsx:193-206 | an error marks the active profile failed with the message, keeps an existing error code, and changes nothing else |
| AppState.EventsWithoutActiveId | frontend/src/App.tsx:174-206 | without an active id neither event touches the profiles |
| AppState.ActiveEffect | frontend/src/App.tsx:247-263 | no active connection resets the metadata and disconnects; otherwise the status becomes connecting at the profile's address, other metadata is kept, readings and inline error are cleared |
| AppState.ActiveEffectIdempotent | frontend/src/App.tsx:247-263 | running the effect again changes nothing |
| AppState.HostText | frontend/src/App.tsx:268-269 | the target alone on port 22 (or a missing port), otherwise `target:port` |
| AppState.SyncHostInput | frontend/src/App.tsx:266-271 | the input box follows the active connection and is left alone without one |
| AppState.LastIndexOf | frontend/src/App.tsx:280 | the position of the last colon, or -1 |
| AppState.PortOf | frontend/src/App.tsx:282-284 | only an integer in 1..65535 is a port |
| AppState.SplitHostPort | frontend/src/App.tsx:280-294 | split at the last colon when a port follows, otherwise all target on port 22 |
| AppState.ParseHostInput | frontend/src/App.tsx:274-294 | blank input is nothing; otherwise the trimmed text on port 22, or a target and a valid port split at a colon |
| AppState.ParseHostText | frontend/src/App.tsx:266-294 | what the input box shows for a connection reads back as that connection |
| AppState.ParseHostWithPort | frontend/src/App.tsx:266-294 | `target:port` with a port other than 22 reads back as that target and port |
| AppState.SplitAtLastColon | frontend/src/App.tsx:281-290 | split at its last colon, `target:digits` gives back the target and the port |
| AppState.FindAddress | frontend/src/App.tsx:297 | the first profile at the given target and port |
| AppState.MiniConnect | frontend/src/App.tsx:273-327 | blank input does nothing; a saved address only becomes active; a new one is put in front, active only when its test succeeded |
| AppState.MiniConnectKeepsIdsUnique | frontend/src/App.tsx:307-319 | with a fresh id, profile ids stay unique |
| AppState.ConsKeepsIdsUnique | frontend/src/App.tsx:307-319 | a profile with an unused id put in front keeps ids unique |
| AppState.MiniConnectActivates | frontend/src/App.tsx:297-323 | when connecting makes a profile active, the active connection is at the address typed |
| AppState.WithoutId | frontend/src/App.tsx:343 | exactly the profiles with another id are kept |
| AppState.WithoutIdKeepsOrder | frontend/src/App.tsx:343 | the kept profiles stay in order, and nothing goes when no profile has the id |
| AppState.Delete | frontend/src/App.tsx:342-349 | deleting removes that id; deleting the active one also clears the active id, the readings and the metadata |
| AppState.DeleteIdempotent | frontend/src/App.tsx:342-349 | deleting twice is deleting once |
| AppState.DeleteActiveDisconnects | frontend/src/App.tsx:342-349 | after deleting the active profile, the effect resets the metadata and disconnects |
| AppState.DeleteOtherKeepsActive | frontend/src/App.tsx:342-349 | deleting another profile leaves the active connection as it was |
| AppState.LookupWithout | frontend/src/App.tsx:342-349 | dropping the profiles of one id does not change what another id finds |
| AppState.MigrateStorage | frontend/src/App.tsx:92-102 | a store at version 2 is untouched; any other loses the five legacy and version-2 keys, keeps every other key, and is stamped version 2 |
| AppState.MigrateIdempotent | frontend/src/App.tsx:92-102 | migrating twice is migrating once |
| AppState.ElapsedSeconds | frontend/src/App.tsx:110 | whole seconds elapsed, rounded down and never negative |
| AppState.UnitFor | frontend/src/App.tsx:111-113 | the largest unit that fits, hours at most |
| AppState.FormatRelative | frontend/src/App.tsx:108-114 | `never` for a missing or zero timestamp, otherwise the elapsed time in its unit |
| AppState.RelativeCount | frontend/src/App.tsx:110-113 | the count shown is the elapsed time in its unit rounded down, and a later clock never shows less |

## Left out

- Process and network I/O: running `ssh` (`runSSHCommand`, `queryGPUs`), the release check over HTTP (`CheckForUpdate`), and `DoUpdate`. The app.go poll loop calls `queryGPUs` with one argument, unlike its definition; this inconsistency is not modelled.
- Reading configuration files: the home directory and `stat` handling of `discoverSSHConfigConnections`, the scanner's read error, and `Include` with `resolveIncludePaths`, `hasGlob` and the visited-file set. A file is modelled as its lines, and the `Include` keyword is recognised and skipped.
- The `Source: "ssh_config"` field every discovered connection carries. It is a constant and is dropped from `Conn`.
- Go's distinction between a nil and an empty slice. An empty result is the empty sequence either way.
- Concurrency and native glue: the poll loop with its ticker and mutex, the Objective-C tray, and showing or hiding the window.
- Presentation: JSX, CSS class strings beyond the tier they select, the status indicator, the input component, and the one-second clock that re-renders relative times.
- React scheduling: state updates are applied one handler at a time. After `await TestConnection`, the code prepends to whatever list is current by then; the model prepends to the list it started from.
- The `settingsOpen` and `isMiniConnecting` flags of `handleMiniConnect`, which only drive the UI.
- `createProfileId` (clock and random text): the fresh id is a parameter.
- `readJson` and the other local-storage reads and writes besides `migrateStorage`.
- MetricBar.Pct: the fill is the exact ratio times 100, where JavaScript computes `(value / max) * 100` in IEEE-754 doubles. The double product can miss the exact value: for 29 of 200 it is 14.499999999999998. Exact rational arithmetic is modelled instead of doubles.
- MenuBar.MemPct: rounds the exact percentage, where JavaScript rounds the double `(memUsed / memTotal) * 100`. For 29 MiB used of 200 the double is 14.499999999999998, so JavaScript shows 14 and the model 15. Exact rational arithmetic is modelled instead of doubles.
- MenuBar.PowerPct: the same exact-rational rounding of `(powerDraw / powerLimit) * 100`; for 29 W of 200 JavaScript shows 14 and the model 15.
- MenuBar.MiniBarLabel: rounds the exact clamped ratio, where JavaScript rounds the double `pct`; for 29 of 200 JavaScript shows `14%` and the model `15%`.
- GpuCard.AsPercent: the same exact-rational rounding of `(value / total) * 100`; for 29 of 200 JavaScript returns 14 and the model 15.
- NvidiaSmi.ParseNumber: a token that `Atoi` rejects but `ParseFloat` reads is rounded exactly. Go's `int(math.Round(f))` is implementation-defined when the rounded value lies outside the 64-bit range, as for `99999999999999999999`, so the model's exact integer is not what Go returns there. The float64 precision of `ParseFloat` is not modelled either.
- Numbers.ParseDecimal: accepts only an optional sign, digits, and an optional fraction. Exponents, hexadecimal, `inf`/`Infinity`, `NaN` and digit separators are not modelled, and decimals are exact rather than float64.
- Text.Trim: the function's own contract gives the ends of the result and the all-whitespace case. That exactly the leading and trailing whitespace runs are removed is stated by Text.TrimIsSlice and Text.TrimExact.
- Text.Fields: the function's own contract gives only the shape of the fields (non-empty, free of whitespace). That they are the text's maximal runs, in order, is stated by Text.FieldsStep, Text.FieldsSkipSpace and Text.FieldsOfJoin.
- SshConfig.SplitDirective: the function's own contract states only that the key holds no gap. The split at the first space or tab is stated by SshConfig.SplitDirectiveFirstGap.
- Numbers.JsIntegerValue: the same restriction applies to `Number()` on a port suffix. A suffix such as `1e3` or `0x16`, which JavaScript reads as a number, is treated as not a port.
- Telemetry.Gpu: JavaScript numbers are modelled as integers, because the back end only sends integers.
- AppState.FormatRelative: timestamps are integers, so `NaN` and fractional milliseconds are not modelled.
- Characters are Unicode scalar values. JavaScript's UTF-16 code units and Go's bytes index the same text differently only outside the Basic Multilingual Plane or outside ASCII; the model works on code points.
- The Go tests, and the `classifyConnectionError` they call, which is not part of this model.

## Findings

| source | as written | input that shows it | evidently intended | confidence | as-written member | corrected member |
|---|---|---|---|---|---|---|
| ssh_config.go:99-103 | connections are de-duplicated on the string `pattern + "\|" + target + "\|" + port`, so two different connections whose parts contain `\|` can share a key | a file with `Host a\|b` / `HostName c` / `Host a` / `HostName b\|c`: both connections have key `a\|b\|c\|0`, and the second, `(a, b\|c, 0)`, is silently dropped | de-duplicate on the connection `(name, target, port)` itself, so that every distinct connection is kept once | not executed | SshConfig.KeyCollisionDropsConnection | SshConfig.ParseOffersEachOnce |
