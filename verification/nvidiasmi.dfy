/** Parsing the output of `nvidia-smi --query-gpu=... --format=csv,noheader,nounits`
    into GPU records (ssh.go). Each non-blank line is one GPU: index, name,
    utilisation, temperature, memory used and total are required; fan speed,
    power draw and limit, driver and CUDA version are optional and fall back
    to -1 or "". One bad line fails the whole parse. */
module NvidiaSmi {
  import opened Text
  import opened Numbers
  import opened Telemetry

  /** The required numeric columns, named as in the error messages. */
  datatype Field = Index | Util | Temp | MemUsed | MemTotal

  datatype SmiError =
    | UnexpectedLine(line: string)          // fewer than six comma-separated fields
    | BadField(field: Field, token: string) // a required column that is not a number

  /** Go's simple case folding, restricted to what can match an ASCII
      lower-case letter: ASCII upper case, U+017F (long s) and U+212A
      (Kelvin sign). */
  function FoldChar(c: char): char
  {
    if 'A' <= c <= 'Z' then (c as int + 32) as char
    else if c == '\U{017F}' then 's'
    else if c == '\U{212A}' then 'k'
    else c
  }

  /** Go `strings.EqualFold(s, lower)` for a lower-case ASCII `lower`. */
  predicate EqualFoldAscii(s: string, lower: string)
  {
    |s| == |lower| && forall k :: 0 <= k < |s| ==> FoldChar(s[k]) == lower[k]
  }

  /** The placeholders nvidia-smi prints for a value it cannot report. */
  predicate IsSentinel(token: string)
  {
    EqualFoldAscii(token, "n/a") || EqualFoldAscii(token, "[not supported]")
  }

  /** A trimmed numeric token: an integer as `strconv.Atoi` reads it, else a
      decimal rounded half away from zero as `math.Round` rounds it. */
  function ParseNumber(token: string): (r: Option<int>)
    ensures Atoi(token).Some? ==> r == Atoi(token)
    ensures Atoi(token).None? && ParseDecimal(token).Some? ==> r == Some(RoundHalfAway(ParseDecimal(token).value))
    ensures Atoi(token).None? && ParseDecimal(token).None? ==> r.None?
    ensures r.Some? ==> |token| > 0
  {
    match Atoi(token)
    case Some(n) => Some(n)
    case None =>
      match ParseDecimal(token)
      case Some(d) => Some(RoundHalfAway(d))
      case None => None
  }

  /** `parseRequiredInt`: `None` stands for the returned error. */
  function ParseRequiredInt(raw: string): (r: Option<int>)
    ensures GoTrimSpace(raw) == "" ==> r.None?
    ensures IsSentinel(GoTrimSpace(raw)) ==> r.None?
    ensures !IsSentinel(GoTrimSpace(raw)) ==> r == ParseNumber(GoTrimSpace(raw))
  {
    var token := GoTrimSpace(raw);
    if token == "" then None
    else if IsSentinel(token) then None
    else ParseNumber(token)
  }

  /** `parseOptionalInt`: column `index` as a number, or -1 when the column is
      missing, blank, a placeholder or not a number. */
  function ParseOptionalInt(parts: seq<string>, index: nat): (r: int)
    ensures index >= |parts| ==> r == -1
    ensures index < |parts| ==> r == ParseRequiredInt(parts[index]).GetOr(-1)
  {
    if index >= |parts| then -1
    else
      var token := GoTrimSpace(parts[index]);
      if token == "" || IsSentinel(token) then -1
      else match ParseNumber(token)
        case Some(n) => n
        case None => -1
  }

  /** `parseOptionalString`: column `index` trimmed, or "" when the column is
      missing, blank or a placeholder. */
  function ParseOptionalString(parts: seq<string>, index: nat): (r: string)
    ensures index >= |parts| ==> r == ""
    ensures index < |parts| && IsSentinel(GoTrimSpace(parts[index])) ==> r == ""
    ensures index < |parts| && !IsSentinel(GoTrimSpace(parts[index])) ==> r == GoTrimSpace(parts[index])
  {
    if index >= |parts| then ""
    else
      var token := GoTrimSpace(parts[index]);
      if token == "" || IsSentinel(token) then "" else token
  }

  /** The column each required field is read from; they are read left to
      right, so the first failing one is the one reported. */
  function ColumnOf(f: Field): (c: nat)
    ensures c <= 5 && c != 1
  {
    match f
    case Index => 0
    case Util => 2
    case Temp => 3
    case MemUsed => 4
    case MemTotal => 5
  }

  /** Every required column of a line with at least six parts is a number. */
  predicate RequiredColumnsParse(parts: seq<string>)
    requires |parts| >= 6
  {
    && ParseRequiredInt(parts[0]).Some?
    && ParseRequiredInt(parts[2]).Some?
    && ParseRequiredInt(parts[3]).Some?
    && ParseRequiredInt(parts[4]).Some?
    && ParseRequiredInt(parts[5]).Some?
  }

  /** `e` names the leftmost required column of `parts` that is not a
      number, with that column's untrimmed text. */
  predicate ReportsFirstBadColumn(parts: seq<string>, e: SmiError)
    requires |parts| >= 6
  {
    && e.BadField?
    && e.token == parts[ColumnOf(e.field)]
    && ParseRequiredInt(e.token).None?
    && RequiredParseBefore(parts, ColumnOf(e.field))
  }

  /** Every required column left of column `c` is a number. */
  predicate RequiredParseBefore(parts: seq<string>, c: nat)
    requires |parts| >= 6
  {
    && (c > 0 ==> ParseRequiredInt(parts[0]).Some?)
    && (c > 2 ==> ParseRequiredInt(parts[2]).Some?)
    && (c > 3 ==> ParseRequiredInt(parts[3]).Some?)
    && (c > 4 ==> ParseRequiredInt(parts[4]).Some?)
  }

  /** The loop body of `parseOutput` for one non-blank, trimmed line. */
  function ParseLine(line: string, hasCuda: bool): (r: Result<Gpu, SmiError>)
    ensures |Split(line, ',')| < 6 ==> r == Err(UnexpectedLine(line))
    ensures |Split(line, ',')| >= 6 ==> r == ParseColumns(Split(line, ','), hasCuda)
  {
    var parts := Split(line, ',');
    if |parts| < 6 then Err(UnexpectedLine(line)) else ParseColumns(parts, hasCuda)
  }

  /** A line split at its commas, six parts or more: it parses exactly when
      the five required columns do, and the error then names the leftmost
      required column that fails, with its untrimmed text. A success holds
      every column as its parser reads it, and no CUDA version unless it
      was queried. */
  function ParseColumns(parts: seq<string>, hasCuda: bool): (r: Result<Gpu, SmiError>)
    requires |parts| >= 6
    ensures r.Ok? <==> RequiredColumnsParse(parts)
    ensures r.Ok? ==>
              && ParseRequiredInt(parts[0]) == Some(r.value.index)
              && r.value.name == GoTrimSpace(parts[1])
              && ParseRequiredInt(parts[2]) == Some(r.value.util)
              && ParseRequiredInt(parts[3]) == Some(r.value.temp)
              && ParseRequiredInt(parts[4]) == Some(r.value.memUsed)
              && ParseRequiredInt(parts[5]) == Some(r.value.memTotal)
    ensures r.Ok? ==>
              && r.value.fanSpeed == ParseOptionalInt(parts, 6)
              && r.value.powerDraw == ParseOptionalInt(parts, 7)
              && r.value.powerLimit == ParseOptionalInt(parts, 8)
              && r.value.driverVersion == ParseOptionalString(parts, 9)
              && r.value.cudaVersion == (if hasCuda then ParseOptionalString(parts, 10) else "")
  {
    match ParseRequiredInt(parts[0])
    case None => Err(BadField(Index, parts[0]))
    case Some(index) =>
      var name := GoTrimSpace(parts[1]);
      match ParseRequiredInt(parts[2])
      case None => Err(BadField(Util, parts[2]))
      case Some(util) =>
        match ParseRequiredInt(parts[3])
        case None => Err(BadField(Temp, parts[3]))
        case Some(temp) =>
          match ParseRequiredInt(parts[4])
          case None => Err(BadField(MemUsed, parts[4]))
          case Some(memUsed) =>
            match ParseRequiredInt(parts[5])
            case None => Err(BadField(MemTotal, parts[5]))
            case Some(memTotal) =>
              Ok(Gpu(
                index, name, util, temp, memUsed, memTotal,
                ParseOptionalInt(parts, 6),
                ParseOptionalInt(parts, 7),
                ParseOptionalInt(parts, 8),
                ParseOptionalString(parts, 9),
                if hasCuda then ParseOptionalString(parts, 10) else ""))
  }

  /** A failed parse names the leftmost required column that is not a
      number, with its untrimmed text. */
  lemma ParseColumnsError(parts: seq<string>, hasCuda: bool)
    requires |parts| >= 6
    ensures var r := ParseColumns(parts, hasCuda);
            r.Err? ==> ReportsFirstBadColumn(parts, r.error)
  {
    if !RequiredColumnsParse(parts) {
      var f := FirstBadField(parts);
      ParseColumnsBadAt(parts, hasCuda, f);
    }
  }

  /** The leftmost required column that is not a number. */
  function FirstBadField(parts: seq<string>): (f: Field)
    requires |parts| >= 6 && !RequiredColumnsParse(parts)
    ensures ParseRequiredInt(parts[ColumnOf(f)]).None?
    ensures RequiredParseBefore(parts, ColumnOf(f))
  {
    if ParseRequiredInt(parts[0]).None? then Index
    else if ParseRequiredInt(parts[2]).None? then Util
    else if ParseRequiredInt(parts[3]).None? then Temp
    else if ParseRequiredInt(parts[4]).None? then MemUsed
    else MemTotal
  }

  /** When every required column left of `f`'s parses and `f`'s does not,
      the parse fails at `f`. */
  lemma ParseColumnsBadAt(parts: seq<string>, hasCuda: bool, f: Field)
    requires |parts| >= 6
    requires ParseRequiredInt(parts[ColumnOf(f)]).None?
    requires RequiredParseBefore(parts, ColumnOf(f))
    ensures ParseColumns(parts, hasCuda) == Err(BadField(f, parts[ColumnOf(f)]))
  {
  }

  /** The lines that describe a GPU: every line trimmed, blank ones dropped. */
  function NonBlank(lines: seq<string>): (r: seq<string>)
    ensures |r| <= |lines|
    ensures forall i :: 0 <= i < |r| ==> r[i] != ""
  {
    if |lines| == 0 then []
    else
      var t := GoTrimSpace(lines[0]);
      if t == "" then NonBlank(lines[1..]) else [t] + NonBlank(lines[1..])
  }

  /** The loop of `parseOutput` over its lines, `parse` being its body: the
      first line that fails fails the whole parse. */
  function ParseLines(lines: seq<string>, parse: string -> Result<Gpu, SmiError>): (r: Result<seq<Gpu>, SmiError>)
    ensures r.Ok? ==> |r.value| == |NonBlank(lines)|
  {
    if |lines| == 0 then Ok([])
    else
      var line := GoTrimSpace(lines[0]);
      if line == "" then ParseLines(lines[1..], parse)
      else match parse(line)
        case Err(e) => Err(e)
        case Ok(g) =>
          match ParseLines(lines[1..], parse)
          case Err(e) => Err(e)
          case Ok(gs) => Ok([g] + gs)
  }

  /** Every one of `lines` parses. */
  predicate AllParse(lines: seq<string>, parse: string -> Result<Gpu, SmiError>)
  {
    forall i :: 0 <= i < |lines| ==> parse(lines[i]).Ok?
  }

  /** The parse succeeds exactly when every non-blank line parses, and then
      holds one GPU per such line, in line order. */
  lemma ParseLinesOk(lines: seq<string>, parse: string -> Result<Gpu, SmiError>)
    ensures ParseLines(lines, parse).Ok? <==> AllParse(NonBlank(lines), parse)
    ensures var nb := NonBlank(lines);
            var r := ParseLines(lines, parse);
            r.Ok? ==> forall i :: 0 <= i < |nb| ==> Ok(r.value[i]) == parse(nb[i])
  {
    ParseLinesSucceeds(lines, parse);
    ParseLinesValues(lines, parse);
  }

  /** Parsing succeeds exactly when every non-blank line parses. */
  lemma {:induction false} ParseLinesSucceeds(lines: seq<string>, parse: string -> Result<Gpu, SmiError>)
    ensures ParseLines(lines, parse).Ok? <==> AllParse(NonBlank(lines), parse)
  {
    if |lines| > 0 {
      ParseLinesSucceeds(lines[1..], parse);
      var line := GoTrimSpace(lines[0]);
      if line != "" {
        var nb := NonBlank(lines);
        var tail := NonBlank(lines[1..]);
        assert nb == [line] + tail;
        assert forall i :: 1 <= i < |nb| ==> nb[i] == tail[i - 1];
        if parse(line).Ok? && ParseLines(lines[1..], parse).Ok? {
          forall i | 0 <= i < |nb| ensures parse(nb[i]).Ok? {
            if i > 0 { assert parse(tail[i - 1]).Ok?; }
          }
        } else if parse(line).Ok? {
          var k :| 0 <= k < |tail| && !parse(tail[k]).Ok?;
          assert !parse(nb[k + 1]).Ok?;
        } else {
          assert nb[0] == line;
        }
      } else {
        assert NonBlank(lines) == NonBlank(lines[1..]);
      }
    }
  }

  /** A successful parse holds, in order, what each non-blank line parses
      to. */
  lemma {:induction false} ParseLinesValues(lines: seq<string>, parse: string -> Result<Gpu, SmiError>)
    ensures var nb := NonBlank(lines);
            var r := ParseLines(lines, parse);
            r.Ok? ==> forall i :: 0 <= i < |nb| ==> Ok(r.value[i]) == parse(nb[i])
  {
    if |lines| > 0 {
      ParseLinesValues(lines[1..], parse);
      var line := GoTrimSpace(lines[0]);
      if line == "" {
        assert NonBlank(lines) == NonBlank(lines[1..]);
        assert ParseLines(lines, parse) == ParseLines(lines[1..], parse);
      } else if parse(line).Ok? && ParseLines(lines[1..], parse).Ok? {
        ParseLinesValuesCons(lines, parse);
      }
    }
  }

  lemma ParseLinesValuesCons(lines: seq<string>, parse: string -> Result<Gpu, SmiError>)
    requires |lines| > 0 && GoTrimSpace(lines[0]) != ""
    requires parse(GoTrimSpace(lines[0])).Ok? && ParseLines(lines[1..], parse).Ok?
    requires var nb, r := NonBlank(lines[1..]), ParseLines(lines[1..], parse);
             forall i :: 0 <= i < |nb| ==> Ok(r.value[i]) == parse(nb[i])
    ensures var nb, r := NonBlank(lines), ParseLines(lines, parse);
            r.Ok? && forall i :: 0 <= i < |nb| ==> Ok(r.value[i]) == parse(nb[i])
  {
    var line := GoTrimSpace(lines[0]);
    var tail := NonBlank(lines[1..]);
    var nb := [line] + tail;
    var g, gs := parse(line).value, ParseLines(lines[1..], parse).value;
    ParseLinesCons(lines, parse);
    ReadInOrderCons(line, g, tail, gs, parse);
  }

  /** Prepending a line and the GPU it parses to keeps them paired. */
  lemma ReadInOrderCons(line: string, g: Gpu, tail: seq<string>, gs: seq<Gpu>,
                        parse: string -> Result<Gpu, SmiError>)
    requires Ok(g) == parse(line) && |gs| == |tail|
    requires forall i :: 0 <= i < |tail| ==> Ok(gs[i]) == parse(tail[i])
    ensures var nb, vs := [line] + tail, [g] + gs;
            forall i :: 0 <= i < |nb| ==> Ok(vs[i]) == parse(nb[i])
  {
    var nb, vs := [line] + tail, [g] + gs;
    forall i | 1 <= i < |nb| ensures Ok(vs[i]) == parse(nb[i]) {
      assert vs[i] == gs[i - 1] && nb[i] == tail[i - 1];
    }
  }

  /** A non-blank first line that parses heads both the lines kept and the
      GPUs read. */
  lemma ParseLinesCons(lines: seq<string>, parse: string -> Result<Gpu, SmiError>)
    requires |lines| > 0 && GoTrimSpace(lines[0]) != ""
    requires parse(GoTrimSpace(lines[0])).Ok? && ParseLines(lines[1..], parse).Ok?
    ensures NonBlank(lines) == [GoTrimSpace(lines[0])] + NonBlank(lines[1..])
    ensures ParseLines(lines, parse)
            == Ok([parse(GoTrimSpace(lines[0])).value] + ParseLines(lines[1..], parse).value)
  {
  }

  /** Line `i` is the first of `lines` that does not parse, failing with `e`. */
  predicate FirstFailure(lines: seq<string>, parse: string -> Result<Gpu, SmiError>, i: int, e: SmiError)
  {
    && 0 <= i < |lines|
    && parse(lines[i]) == Err(e)
    && forall j :: 0 <= j < i ==> parse(lines[j]).Ok?
  }

  /** A failed parse reports the error of the first non-blank line that does
      not parse. */
  lemma {:induction false} ParseLinesFirstError(lines: seq<string>, parse: string -> Result<Gpu, SmiError>)
    requires ParseLines(lines, parse).Err?
    ensures exists i :: FirstFailure(NonBlank(lines), parse, i, ParseLines(lines, parse).error)
  {
    var line := GoTrimSpace(lines[0]);
    var nb := NonBlank(lines);
    var tail := NonBlank(lines[1..]);
    var e := ParseLines(lines, parse).error;
    if line == "" {
      assert nb == tail;
      assert ParseLines(lines, parse) == ParseLines(lines[1..], parse);
      ParseLinesFirstError(lines[1..], parse);
      var i :| FirstFailure(tail, parse, i, e);
      assert FirstFailure(nb, parse, i, e);
    } else {
      assert nb == [line] + tail;
      if parse(line).Err? {
        assert FirstFailure(nb, parse, 0, e);
      } else {
        ParseLinesFirstError(lines[1..], parse);
        var i :| FirstFailure(tail, parse, i, e);
        FirstFailureCons(line, tail, parse, i, e);
      }
    }
  }

  /** A line that parses, put in front, moves the first failure one on. */
  lemma FirstFailureCons(line: string, tail: seq<string>, parse: string -> Result<Gpu, SmiError>, i: int, e: SmiError)
    requires parse(line).Ok? && FirstFailure(tail, parse, i, e)
    ensures FirstFailure([line] + tail, parse, i + 1, e)
  {
    var nb := [line] + tail;
    assert nb[i + 1] == tail[i];
    assert forall j :: 1 <= j < i + 1 ==> nb[j] == tail[j - 1];
  }

  /** The loop body `parseOutput` runs on each line. */
  function LineParser(hasCuda: bool): string -> Result<Gpu, SmiError>
  {
    line => ParseLine(line, hasCuda)
  }

  /** `parseOutput`: the whole output, split into lines after trimming it. */
  function ParseOutput(raw: string, hasCuda: bool): (r: Result<seq<Gpu>, SmiError>)
    ensures var nb := NonBlank(Split(GoTrimSpace(raw), '\n'));
            r.Ok? ==> |r.value| == |nb|
  {
    ParseLines(Split(GoTrimSpace(raw), '\n'), LineParser(hasCuda))
  }

  /** A reading with one decimal place, as nvidia-smi prints power, is rounded
      to the nearest whole number, a trailing 5 rounding up. */
  lemma ParseNumberOneDecimal(whole: nat, tenth: nat)
    requires tenth < 10
    ensures ParseNumber(NatToString(whole) + "." + [DigitChar(tenth)])
            == Some(if tenth >= 5 then whole + 1 else whole)
  {
    var w := NatToString(whole);
    var f := [DigitChar(tenth)];
    OneDecimalSyntax(w, f);
    assert DigitsValue(w + f) == 10 * whole + tenth by {
      assert (w + f)[..|w + f| - 1] == w;
    }
    RoundTenths(whole, tenth);
  }

  /** Digits, a dot and one more digit: not an integer, a decimal with one
      digit after the point. */
  lemma OneDecimalSyntax(w: string, f: string)
    requires |w| > 0 && AllDigits(w) && |f| == 1 && AllDigits(f)
    ensures Atoi(w + "." + f).None?
    ensures ParseDecimal(w + "." + f) == Some(Decimal(false, DigitsValue(w + f), 1))
  {
    var s := w + "." + f;
    assert s[|w|] == '.' && !IsDigit(s[|w|]);
    assert AtoiSyntax(s).None? by {
      assert s[0] == w[0] && IsDigit(w[0]);
    }
    var dot := PointIndex(s);
    assert forall k :: 0 <= k < |w| ==> s[k] == w[k] && s[k] != '.';
    assert dot == |w|;
    assert s[..dot] == w;
    assert s[dot + 1..] == f;
  }

  /** Rounding a number with one decimal digit: half a unit and more rounds
      up. */
  lemma RoundTenths(whole: nat, tenth: nat)
    requires tenth < 10
    ensures RoundHalfAway(Decimal(false, 10 * whole + tenth, 1)) == if tenth >= 5 then whole + 1 else whole
  {
    assert Pow10(1) == 10;
  }

  /** The placeholder "N/A" is recognised whatever its letter case. */
  lemma NotAvailableIsSentinel()
    ensures IsSentinel("N/A") && IsSentinel("n/a") && IsSentinel("[Not Supported]")
  {
  }

  /** No rendered integer is a placeholder. */
  lemma IntNotSentinel(i: int)
    ensures !IsSentinel(IntToString(i))
  {
    var r := IntToString(i);
    IntToStringAlphabet(i);
    if |r| == 3 {
      assert FoldChar(r[0]) != 'n';
    }
    if |r| == 15 {
      assert FoldChar(r[0]) != '[';
    }
  }

  /** A rendered integer begins and ends with a non-space and holds neither a
      comma nor a line break. */
  lemma IntToStringClean(i: int)
    ensures var r := IntToString(i);
            && !IsGoSpace(r[0]) && !IsGoSpace(r[|r| - 1])
            && ',' !in r && '\n' !in r
  {
    var r := IntToString(i);
    IntToStringAlphabet(i);
    assert forall k :: 0 <= k < |r| ==> !IsGoSpace(r[k]) && r[k] != ',' && r[k] != '\n';
  }

  /** An integer column, padded or not, is read back as that integer. */
  lemma IntColumn(i: int)
    requires Int64Min <= i <= Int64Max
    ensures ParseRequiredInt(IntToString(i)) == Some(i)
    ensures ParseRequiredInt(" " + IntToString(i)) == Some(i)
  {
    var r := IntToString(i);
    IntToStringClean(i);
    assert GoTrimSpace(r) == r;
    TrimAfterSpace(r);
    IntNotSentinel(i);
    AtoiIntToString(i);
  }

  /** A rendered reading with one decimal place. */
  function OneDecimal(whole: nat, tenth: nat): (r: string)
    requires tenth < 10
    ensures |r| >= 3 && IsDigit(r[0]) && IsDigit(r[|r| - 1])
    ensures ',' !in r && '\n' !in r
  {
    var w := NatToString(whole);
    var r := w + "." + [DigitChar(tenth)];
    assert r[0] == w[0];
    assert forall k :: 0 <= k < |w| ==> r[k] == w[k];
    assert r[|w|] == '.' && r[|w| + 1] == DigitChar(tenth);
    r
  }

  /** A padded one-decimal column is read rounded to a whole number, a
      trailing 5 rounding up. */
  lemma DecimalColumn(whole: nat, tenth: nat)
    requires tenth < 10
    ensures ParseRequiredInt(" " + OneDecimal(whole, tenth)) == Some(if tenth >= 5 then whole + 1 else whole)
  {
    var w := OneDecimal(whole, tenth);
    PaddedNumber(w);
    ParseNumberOneDecimal(whole, tenth);
  }

  /** A token that starts and ends with a digit, after one blank, is read
      as a number. */
  lemma PaddedNumber(w: string)
    requires |w| > 0 && IsDigit(w[0]) && IsDigit(w[|w| - 1])
    ensures ParseRequiredInt(" " + w) == ParseNumber(w)
  {
    DigitEndsTrimmed(w);
    TrimAfterSpace(w);
    DigitNotSentinel(w);
  }

  /** A token that starts and ends with a digit has nothing to trim. */
  lemma DigitEndsTrimmed(w: string)
    requires |w| > 0 && IsDigit(w[0]) && IsDigit(w[|w| - 1])
    ensures GoTrimSpace(w) == w
  {
    assert !IsGoSpace(w[0]) && !IsGoSpace(w[|w| - 1]);
  }

  /** A token that starts with a digit is no placeholder. */
  lemma DigitNotSentinel(w: string)
    requires |w| > 0 && IsDigit(w[0])
    ensures !IsSentinel(w)
  {
    assert FoldChar(w[0]) != 'n' && FoldChar(w[0]) != '[';
  }

  const NotAvailable: string := "N/A"

  /** "N/A" in any column is read as unreported: it trims to the
      placeholder. */
  lemma NotAvailableColumn()
    ensures GoTrimSpace(" " + NotAvailable) == NotAvailable && IsSentinel(NotAvailable)
  {
    NotAvailableTrimmed();
    NotAvailableIsSentinel();
  }

  lemma NotAvailableTrimmed()
    ensures GoTrimSpace(" " + NotAvailable) == NotAvailable
  {
    assert GoTrimSpace(NotAvailable) == NotAvailable by {
      assert NotAvailable[0] == 'N' && NotAvailable[|NotAvailable| - 1] == 'A';
    }
    TrimAfterSpace(NotAvailable);
  }

  lemma NotAvailableNoSeparator()
    ensures NoSeparator(" " + NotAvailable)
  {
  }

  /** How nvidia-smi prints an optional whole-number reading. */
  function OptionalIntColumn(v: int): string
  {
    if v < 0 then " " + NotAvailable else " " + IntToString(v)
  }

  /** How nvidia-smi prints a power reading, in watts with one decimal. */
  function PowerColumnText(v: int): string
  {
    if v < 0 then " " + NotAvailable else " " + OneDecimal(v, 0)
  }

  /** How nvidia-smi prints an optional text column. */
  function OptionalTextColumn(t: string): string
  {
    if t == "" then " " + NotAvailable else " " + t
  }

  /** `cols` are the columns nvidia-smi prints for `g`, each but the first
      after a blank; the CUDA column is queried only when `hasCuda`. */
  predicate Prints(cols: seq<string>, g: Gpu, hasCuda: bool)
  {
    && |cols| == (if hasCuda then 11 else 10)
    && cols[0] == IntToString(g.index)
    && cols[1] == " " + g.name
    && cols[2] == " " + IntToString(g.util)
    && cols[3] == " " + IntToString(g.temp)
    && cols[4] == " " + IntToString(g.memUsed)
    && cols[5] == " " + IntToString(g.memTotal)
    && cols[6] == OptionalIntColumn(g.fanSpeed)
    && cols[7] == PowerColumnText(g.powerDraw)
    && cols[8] == PowerColumnText(g.powerLimit)
    && cols[9] == OptionalTextColumn(g.driverVersion)
    && (hasCuda ==> cols[10] == OptionalTextColumn(g.cudaVersion))
  }

  /** Neither a column separator nor a line separator. */
  predicate NoSeparator(t: string)
  {
    ',' !in t && '\n' !in t
  }

  /** Text that begins and ends with a non-space, or is empty. */
  predicate Trimmed(t: string)
  {
    t == "" || (!IsGoSpace(t[0]) && !IsGoSpace(t[|t| - 1]))
  }

  /** A version column that survives printing and parsing unchanged. */
  predicate CleanText(t: string)
  {
    NoSeparator(t) && Trimmed(t) && !IsSentinel(t)
  }

  /** The GPU records nvidia-smi can report: 64-bit readings, -1 as the only
      negative optional reading, and names and versions that are trimmed, free
      of commas and line breaks, and not a placeholder. */
  predicate Reportable(g: Gpu, hasCuda: bool)
  {
    && Int64Min <= g.index <= Int64Max && Int64Min <= g.util <= Int64Max
    && Int64Min <= g.temp <= Int64Max && Int64Min <= g.memUsed <= Int64Max
    && Int64Min <= g.memTotal <= Int64Max
    && -1 <= g.fanSpeed <= Int64Max && -1 <= g.powerDraw <= Int64Max && -1 <= g.powerLimit <= Int64Max
    && NoSeparator(g.name) && Trimmed(g.name)
    && CleanText(g.driverVersion) && CleanText(g.cudaVersion)
    && (!hasCuda ==> g.cudaVersion == "")
  }

  lemma PaddedNoSeparator(t: string)
    requires NoSeparator(t)
    ensures NoSeparator(" " + t)
  {
  }

  lemma IntColumnNoSeparator(v: int)
    ensures NoSeparator(IntToString(v)) && NoSeparator(" " + IntToString(v))
  {
    IntToStringClean(v);
  }

  lemma OptionalIntColumnNoSeparator(v: int)
    ensures NoSeparator(OptionalIntColumn(v))
  {
    IntToStringClean(v);
    NotAvailableNoSeparator();
  }

  lemma PowerColumnNoSeparator(v: int)
    ensures NoSeparator(PowerColumnText(v))
  {
    NotAvailableNoSeparator();
    if v >= 0 {
      PaddedNoSeparator(OneDecimal(v, 0));
    }
  }

  lemma OptionalTextColumnNoSeparator(t: string)
    requires NoSeparator(t)
    ensures NoSeparator(OptionalTextColumn(t))
  {
    NotAvailableNoSeparator();
  }

  /** No printed column holds a comma or a line break. */
  lemma ColumnsSeparatorFree(cols: seq<string>, g: Gpu, hasCuda: bool)
    requires Prints(cols, g, hasCuda) && Reportable(g, hasCuda)
    ensures forall i :: 0 <= i < |cols| ==> NoSeparator(cols[i])
  {
    IdentitySeparatorFree(cols, g, hasCuda);
    ReadingSeparatorFree(cols, g, hasCuda);
    forall i | 0 <= i < |cols| ensures NoSeparator(cols[i]) {
      if i == 0 {
      } else if i == 1 {
      } else if i == 2 {
      } else if i == 3 {
      } else if i == 4 {
      } else if i == 5 {
      } else if i == 6 {
      } else if i == 7 {
      } else if i == 8 {
      } else if i == 9 {
      } else {
        assert i == 10;
      }
    }
  }

  lemma IdentitySeparatorFree(cols: seq<string>, g: Gpu, hasCuda: bool)
    requires Prints(cols, g, hasCuda) && Reportable(g, hasCuda)
    ensures NoSeparator(cols[0]) && NoSeparator(cols[1])
    ensures NoSeparator(cols[9]) && (hasCuda ==> NoSeparator(cols[10]))
  {
    IntColumnNoSeparator(g.index);
    PaddedNoSeparator(g.name);
    OptionalTextColumnNoSeparator(g.driverVersion);
    OptionalTextColumnNoSeparator(g.cudaVersion);
  }

  lemma ReadingSeparatorFree(cols: seq<string>, g: Gpu, hasCuda: bool)
    requires Prints(cols, g, hasCuda) && Reportable(g, hasCuda)
    ensures NoSeparator(cols[2]) && NoSeparator(cols[3]) && NoSeparator(cols[4]) && NoSeparator(cols[5])
    ensures NoSeparator(cols[6]) && NoSeparator(cols[7]) && NoSeparator(cols[8])
  {
    IntColumnNoSeparator(g.util);
    IntColumnNoSeparator(g.temp);
    IntColumnNoSeparator(g.memUsed);
    IntColumnNoSeparator(g.memTotal);
    OptionalIntColumnNoSeparator(g.fanSpeed);
    PowerColumnNoSeparator(g.powerDraw);
    PowerColumnNoSeparator(g.powerLimit);
  }



  /** The printed columns hold no separator, so the line splits back into
      them. */
  lemma {:induction false} PrintedLineSplits(cols: seq<string>, g: Gpu, hasCuda: bool)
    requires Prints(cols, g, hasCuda) && Reportable(g, hasCuda)
    ensures Split(Join(cols, ","), ',') == cols
  {
    ColumnsSeparatorFree(cols, g, hasCuda);
    SplitJoin(cols, ',');
  }

  lemma OptionalIntColumnParsed(v: int)
    requires -1 <= v <= Int64Max
    ensures ParseRequiredInt(OptionalIntColumn(v)).GetOr(-1) == v
  {
    if v < 0 {
      NotAvailableColumn();
    } else {
      IntColumn(v);
    }
  }

  lemma PowerColumnParsed(v: int)
    requires -1 <= v <= Int64Max
    ensures ParseRequiredInt(PowerColumnText(v)).GetOr(-1) == v
  {
    if v < 0 {
      NotAvailableColumn();
    } else {
      DecimalColumn(v, 0);
    }
  }

  lemma OptionalTextColumnParsed(t: string)
    requires CleanText(t)
    ensures var token := GoTrimSpace(OptionalTextColumn(t));
            (if IsSentinel(token) then "" else token) == t
  {
    if t == "" {
      NotAvailableColumn();
    } else {
      TrimAfterSpace(t);
    }
  }

  /** `ParseLine` builds its record from the columns' readings. */
  lemma {:induction false} ParseLineOfColumns(line: string, hasCuda: bool, g: Gpu)
    requires var parts := Split(line, ',');
             && |parts| == (if hasCuda then 11 else 10)
             && ParseRequiredInt(parts[0]) == Some(g.index)
             && GoTrimSpace(parts[1]) == g.name
             && ParseRequiredInt(parts[2]) == Some(g.util)
             && ParseRequiredInt(parts[3]) == Some(g.temp)
             && ParseRequiredInt(parts[4]) == Some(g.memUsed)
             && ParseRequiredInt(parts[5]) == Some(g.memTotal)
             && ParseOptionalInt(parts, 6) == g.fanSpeed
             && ParseOptionalInt(parts, 7) == g.powerDraw
             && ParseOptionalInt(parts, 8) == g.powerLimit
             && ParseOptionalString(parts, 9) == g.driverVersion
             && (if hasCuda then ParseOptionalString(parts, 10) == g.cudaVersion else g.cudaVersion == "")
    ensures ParseLine(line, hasCuda) == Ok(g)
  {
  }

  lemma {:induction false} IdentityColumnsParsed(parts: seq<string>, g: Gpu, hasCuda: bool)
    requires Prints(parts, g, hasCuda)
    requires Int64Min <= g.index <= Int64Max && Trimmed(g.name)
    ensures ParseRequiredInt(parts[0]) == Some(g.index)
    ensures GoTrimSpace(parts[1]) == g.name
  {
    IntColumn(g.index);
    if g.name != "" { TrimAfterSpace(g.name); }
  }

  lemma {:induction false} ReadingColumnsParsed(parts: seq<string>, g: Gpu, hasCuda: bool)
    requires Prints(parts, g, hasCuda)
    requires Int64Min <= g.util <= Int64Max && Int64Min <= g.temp <= Int64Max
    requires Int64Min <= g.memUsed <= Int64Max && Int64Min <= g.memTotal <= Int64Max
    ensures && ParseRequiredInt(parts[2]) == Some(g.util)
            && ParseRequiredInt(parts[3]) == Some(g.temp)
            && ParseRequiredInt(parts[4]) == Some(g.memUsed)
            && ParseRequiredInt(parts[5]) == Some(g.memTotal)
  {
    IntColumn(g.util);
    IntColumn(g.temp);
    IntColumn(g.memUsed);
    IntColumn(g.memTotal);
  }

  lemma {:induction false} OptionalColumnsParsed(parts: seq<string>, g: Gpu, hasCuda: bool)
    requires Prints(parts, g, hasCuda) && Reportable(g, hasCuda)
    ensures && ParseOptionalInt(parts, 6) == g.fanSpeed
            && ParseOptionalInt(parts, 7) == g.powerDraw
            && ParseOptionalInt(parts, 8) == g.powerLimit
            && ParseOptionalString(parts, 9) == g.driverVersion
            && (hasCuda ==> ParseOptionalString(parts, 10) == g.cudaVersion)
  {
    OptionalIntColumnParsed(g.fanSpeed);
    PowerColumnParsed(g.powerDraw);
    PowerColumnParsed(g.powerLimit);
    OptionalTextColumnParsed(g.driverVersion);
    if hasCuda {
      OptionalTextColumnParsed(g.cudaVersion);
    }
  }

  /** Parsing what nvidia-smi prints for a GPU gives back that GPU: the line
      parser is a left inverse of printing on every reportable record. */
  lemma {:induction false} ParsePrintedLine(cols: seq<string>, g: Gpu, hasCuda: bool)
    requires Prints(cols, g, hasCuda) && Reportable(g, hasCuda)
    ensures ParseLine(Join(cols, ","), hasCuda) == Ok(g)
  {
    PrintedLineSplits(cols, g, hasCuda);
    IdentityColumnsParsed(cols, g, hasCuda);
    ReadingColumnsParsed(cols, g, hasCuda);
    OptionalColumnsParsed(cols, g, hasCuda);
    ParseLineOfColumns(Join(cols, ","), hasCuda, g);
  }

  /** A printed line begins with the index and ends with a non-space. */
  lemma {:induction false} PrintedLineTrimmed(cols: seq<string>, g: Gpu, hasCuda: bool)
    requires Prints(cols, g, hasCuda) && Reportable(g, hasCuda)
    ensures var line := Join(cols, ",");
            |line| > 0 && !IsGoSpace(line[0]) && !IsGoSpace(line[|line| - 1])
  {
    var t := if hasCuda then g.cudaVersion else g.driverVersion;
    TextColumnEnds(cols[|cols| - 1], t);
    ColumnsNonEmpty(cols, g, hasCuda);
    IntToStringClean(g.index);
    JoinEnds(cols, ",");
  }

  /** Every printed column holds something. */
  lemma ColumnsNonEmpty(cols: seq<string>, g: Gpu, hasCuda: bool)
    requires Prints(cols, g, hasCuda)
    ensures forall i :: 0 <= i < |cols| ==> |cols[i]| > 0
  {
    forall i | 0 < i < |cols| ensures |cols[i]| > 0 {
      PaddedColumn(cols, g, hasCuda, i);
    }
  }

  /** A printed text column ends with a non-space. */
  lemma TextColumnEnds(col: string, t: string)
    requires col == OptionalTextColumn(t) && Trimmed(t)
    ensures |col| > 0 && !IsGoSpace(col[|col| - 1])
  {
    if t == "" {
      assert col == " N/A";
    } else {
      assert col[|col| - 1] == t[|t| - 1];
    }
  }

  /** Every line of a printed output: trimmed, non-empty, one line. */
  lemma {:induction false} PrintedLineClean(cols: seq<string>, g: Gpu, hasCuda: bool)
    requires Prints(cols, g, hasCuda) && Reportable(g, hasCuda)
    ensures var line := Join(cols, ",");
            && |line| > 0 && !IsGoSpace(line[0]) && !IsGoSpace(line[|line| - 1])
            && '\n' !in line
  {
    PrintedLineTrimmed(cols, g, hasCuda);
    ColumnsSeparatorFree(cols, g, hasCuda);
    NotInJoin(cols, ",", '\n');
  }

  /** Lines that are already trimmed and non-empty are all kept. */
  lemma {:induction false} NonBlankKeepsTrimmed(lines: seq<string>)
    requires forall i :: 0 <= i < |lines| ==> |lines[i]| > 0 && !IsGoSpace(lines[i][0]) && !IsGoSpace(lines[i][|lines[i]| - 1])
    ensures NonBlank(lines) == lines
    decreases |lines|
  {
    if |lines| > 0 {
      NonBlankKeepsTrimmed(lines[1..]);
      assert GoTrimSpace(lines[0]) == lines[0];
      assert [lines[0]] + lines[1..] == lines;
    }
  }

  /** The output lines for a table of printed rows. */
  function PrintedLines(rows: seq<seq<string>>): (lines: seq<string>)
    ensures |lines| == |rows|
    ensures forall i :: 0 <= i < |rows| ==> lines[i] == Join(rows[i], ",")
  {
    seq(|rows|, i requires 0 <= i < |rows| => Join(rows[i], ","))
  }

  /** Every column after the first begins with the blank nvidia-smi prints. */
  lemma {:induction false} PaddedColumn(cols: seq<string>, g: Gpu, hasCuda: bool, i: nat)
    requires Prints(cols, g, hasCuda)
    requires 0 < i < |cols|
    ensures |cols[i]| > 0 && cols[i][0] == ' '
  {
    if i == 6 {
      assert OptionalIntColumn(g.fanSpeed)[0] == ' ';
    } else if i == 7 || i == 8 {
      var v := if i == 7 then g.powerDraw else g.powerLimit;
      assert PowerColumnText(v)[0] == ' ';
    } else if i >= 9 {
      var t := if i == 9 then g.driverVersion else g.cudaVersion;
      assert OptionalTextColumn(t)[0] == ' ';
    } else {
      var t := if i == 1 then g.name else if i == 2 then IntToString(g.util)
               else if i == 3 then IntToString(g.temp) else if i == 4 then IntToString(g.memUsed)
               else IntToString(g.memTotal);
      assert cols[i] == " " + t;
    }
  }

  /** Trimmed, non-empty single lines joined by line breaks are exactly the
      lines `parseOutput` visits. */
  lemma {:induction false} OutputLines(lines: seq<string>)
    requires forall i :: 0 <= i < |lines| ==> |lines[i]| > 0 && !IsGoSpace(lines[i][0]) && !IsGoSpace(lines[i][|lines[i]| - 1])
    requires forall i :: 0 <= i < |lines| ==> '\n' !in lines[i]
    ensures NonBlank(Split(GoTrimSpace(Join(lines, "\n")), '\n')) == lines
  {
    var out := Join(lines, "\n");
    if |lines| == 0 {
      assert out == "";
      assert Split(GoTrimSpace(out), '\n') == [""];
      assert NonBlank([""]) == [];
    } else {
      JoinEnds(lines, "\n");
      assert GoTrimSpace(out) == out;
      SplitJoin(lines, '\n');
      NonBlankKeepsTrimmed(lines);
    }
  }

  /** When every line parses to the matching GPU, the loop yields them all. */
  lemma {:induction false} ParseEveryLine(lines: seq<string>, parse: string -> Result<Gpu, SmiError>, gpus: seq<Gpu>)
    requires |NonBlank(lines)| == |gpus|
    requires forall i :: 0 <= i < |gpus| ==> parse(NonBlank(lines)[i]) == Ok(gpus[i])
    ensures ParseLines(lines, parse) == Ok(gpus)
  {
    ParseLinesOk(lines, parse);
    assert AllParse(NonBlank(lines), parse);
    var r := ParseLines(lines, parse).value;
    assert forall i :: 0 <= i < |gpus| ==> r[i] == gpus[i];
    assert r == gpus;
  }

  /** `line` has no blank at either end, holds no newline, and parses back to `g`. */
  predicate ParsesBack(line: string, g: Gpu, hasCuda: bool)
  {
    && |line| > 0 && !IsGoSpace(line[0]) && !IsGoSpace(line[|line| - 1])
    && '\n' !in line
    && ParseLine(line, hasCuda) == Ok(g)
  }

  lemma {:induction false} PrintedRows(rows: seq<seq<string>>, gpus: seq<Gpu>, hasCuda: bool)
    requires |rows| == |gpus|
    requires forall i :: 0 <= i < |rows| ==> Prints(rows[i], gpus[i], hasCuda) && Reportable(gpus[i], hasCuda)
    ensures var lines := PrintedLines(rows);
            forall i :: 0 <= i < |lines| ==> ParsesBack(lines[i], gpus[i], hasCuda)
  {
    var lines := PrintedLines(rows);
    forall i | 0 <= i < |lines|
      ensures ParsesBack(lines[i], gpus[i], hasCuda)
    {
      PrintedRow(rows[i], gpus[i], hasCuda);
    }
  }

  lemma PrintedRow(cols: seq<string>, g: Gpu, hasCuda: bool)
    requires Prints(cols, g, hasCuda) && Reportable(g, hasCuda)
    ensures ParsesBack(Join(cols, ","), g, hasCuda)
  {
    PrintedLineClean(cols, g, hasCuda);
    ParsePrintedLine(cols, g, hasCuda);
  }

  /** Parsing a whole printed output gives back every GPU, in order. */
  lemma {:induction false} ParsePrintedOutput(rows: seq<seq<string>>, gpus: seq<Gpu>, hasCuda: bool)
    requires |rows| == |gpus|
    requires forall i :: 0 <= i < |rows| ==> Prints(rows[i], gpus[i], hasCuda) && Reportable(gpus[i], hasCuda)
    ensures ParseOutput(Join(PrintedLines(rows), "\n"), hasCuda) == Ok(gpus)
  {
    var lines := PrintedLines(rows);
    var raw := Split(GoTrimSpace(Join(lines, "\n")), '\n');
    PrintedRows(rows, gpus, hasCuda);
    OutputLines(lines);
    assert NonBlank(raw) == lines;
    assert forall i :: 0 <= i < |lines| ==> LineParser(hasCuda)(lines[i]) == Ok(gpus[i]);
    ParseEveryLine(raw, LineParser(hasCuda), gpus);
  }
}
