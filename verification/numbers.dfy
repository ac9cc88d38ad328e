/** Decimal digits in both directions: rendering integers (JavaScript template
    literals, Go `strconv.Itoa`), Go's `strconv.Atoi`, the decimal-literal
    subset of `strconv.ParseFloat` and JavaScript `Number()`, and the two
    rounding rules the sources use (`Math.round`, Go `math.Round`). All
    arithmetic is exact; see README for the floating-point inputs left out. */
module Numbers {
  import opened Text

  predicate IsDigit(c: char)
  {
    '0' <= c <= '9'
  }

  predicate AllDigits(s: string)
  {
    forall k :: 0 <= k < |s| ==> IsDigit(s[k])
  }

  function DigitValue(c: char): nat
    requires IsDigit(c)
  {
    c as int - '0' as int
  }

  function DigitChar(d: nat): (c: char)
    requires d < 10
    ensures IsDigit(c) && DigitValue(c) == d
  {
    ('0' as int + d) as char
  }

  /** The number a string of decimal digits denotes (most significant first). */
  function DigitsValue(s: string): nat
    requires AllDigits(s)
  {
    if |s| == 0 then 0 else 10 * DigitsValue(s[..|s| - 1]) + DigitValue(s[|s| - 1])
  }

  /** Shortest decimal rendering of `n`. Reading the digits back gives `n`. */
  function NatToString(n: nat): (r: string)
    ensures |r| > 0 && AllDigits(r)
    ensures DigitsValue(r) == n
    ensures |r| > 1 ==> r[0] != '0'
  {
    if n < 10 then [DigitChar(n)]
    else
      var r := NatToString(n / 10) + [DigitChar(n % 10)];
      assert r[..|r| - 1] == NatToString(n / 10);
      r
  }

  /** Shortest decimal rendering of an integer, with a leading `-` when
      negative, as a JavaScript template literal and Go `strconv.Itoa` print
      it: no leading zero, and no `-0`. */
  function IntToString(i: int): (r: string)
    ensures |r| > 0
    ensures i >= 0 ==> AllDigits(r) && DigitsValue(r) == i
    ensures i < 0 ==> r[0] == '-' && AllDigits(r[1..]) && DigitsValue(r[1..]) == -i
    ensures i >= 0 && |r| > 1 ==> r[0] != '0'
    ensures i < 0 ==> |r| > 1 && r[1] != '0'
  {
    if i < 0 then "-" + NatToString(-i) else NatToString(i)
  }

  /** A rendered integer is digits, with at most a leading minus sign. */
  lemma IntToStringAlphabet(i: int)
    ensures var r := IntToString(i);
            forall k :: 0 <= k < |r| ==> IsDigit(r[k]) || (k == 0 && r[k] == '-')
  {
    var r := IntToString(i);
    if i < 0 {
      assert forall k :: 1 <= k < |r| ==> r[k] == r[1..][k - 1];
    }
  }

  /** Two digit strings without superfluous leading zeros denote the same
      number only if they are the same string: rendering is injective. */
  lemma {:induction false} NatToStringOfDigits(s: string)
    requires |s| > 0 && AllDigits(s)
    requires |s| > 1 ==> s[0] != '0'
    ensures NatToString(DigitsValue(s)) == s
    decreases |s|
  {
    var n := DigitsValue(s);
    if |s| == 1 {
      assert s[..0] == "";
    } else {
      var p := s[..|s| - 1];
      assert p[0] == s[0];
      NatToStringOfDigits(p);
      var d := DigitValue(s[|s| - 1]);
      assert n == 10 * DigitsValue(p) + d;
      DigitsValueLeadingDigit(p);
      assert n / 10 == DigitsValue(p) && n % 10 == d;
      assert s == p + [s[|s| - 1]];
    }
  }

  /** A digit string without a leading zero denotes at least 1. */
  lemma {:induction false} DigitsValueLeadingDigit(s: string)
    requires |s| > 0 && AllDigits(s) && s[0] != '0'
    ensures DigitsValue(s) >= 1
    decreases |s|
  {
    if |s| > 1 {
      assert s[..|s| - 1][0] == s[0];
      DigitsValueLeadingDigit(s[..|s| - 1]);
    }
  }

  const Int64Min: int := -0x8000_0000_0000_0000
  const Int64Max: int := 0x7FFF_FFFF_FFFF_FFFF

  /** The text Go's `strconv.Atoi` accepts as a base-10 integer: an optional
      sign followed by at least one digit. */
  function AtoiSyntax(s: string): (r: Option<int>)
    ensures |s| > 0 && AllDigits(s) ==> r == Some(DigitsValue(s))
    ensures r.Some? ==> |s| > 0 && (IsDigit(s[0]) || s[0] == '+' || s[0] == '-')
  {
    if |s| > 0 && (s[0] == '+' || s[0] == '-') then
      var body := s[1..];
      if |body| > 0 && AllDigits(body) then
        var v: int := DigitsValue(body);
        Some(if s[0] == '-' then -v else v)
      else None
    else if |s| > 0 && AllDigits(s) then Some(DigitsValue(s))
    else None
  }

  /** Go `strconv.Atoi` on a 64-bit platform; `None` stands for the returned
      error (bad syntax or out of range). */
  function Atoi(s: string): (r: Option<int>)
    ensures r.Some? ==> Int64Min <= r.value <= Int64Max
    ensures r.Some? ==> AtoiSyntax(s) == r
    ensures AtoiSyntax(s).Some? && Int64Min <= AtoiSyntax(s).value <= Int64Max ==> r.Some?
  {
    match AtoiSyntax(s)
    case Some(n) => if Int64Min <= n <= Int64Max then Some(n) else None
    case None => None
  }

  /** Every 64-bit integer Go prints is read back by `Atoi`. */
  lemma AtoiIntToString(i: int)
    requires Int64Min <= i <= Int64Max
    ensures Atoi(IntToString(i)) == Some(i)
  {
    var r := IntToString(i);
    if i < 0 {
      assert r[1..] == NatToString(-i);
    }
  }

  const Uint64Max: int := 0xFFFF_FFFF_FFFF_FFFF

  /** The text after one optional leading sign. */
  function Unsigned(s: string): (r: string)
    ensures |s| > 0 && (s[0] == '+' || s[0] == '-') ==> r == s[1..]
    ensures (|s| == 0 || (s[0] != '+' && s[0] != '-')) ==> r == s
  {
    if |s| > 0 && (s[0] == '+' || s[0] == '-') then s[1..] else s
  }

  /** The longest prefix of `s` made of digits. */
  function LeadingDigits(s: string): (r: string)
    ensures |r| <= |s| && r == s[..|r|] && AllDigits(r)
    ensures |r| < |s| ==> !IsDigit(s[|r|])
    ensures AllDigits(s) ==> r == s
  {
    var i := FindFirst(s, c => !IsDigit(c));
    assert AllDigits(s) ==> i == |s| && s[..i] == s;
    s[..i]
  }

  /** The leading digits that end where the first non-digit stands are the
      longest digit prefix. */
  lemma LeadingDigitsAt(s: string, i: nat)
    requires i <= |s| && AllDigits(s[..i])
    requires i < |s| ==> !IsDigit(s[i])
    ensures LeadingDigits(s) == s[..i]
  {
    var j := FindFirst(s, c => !IsDigit(c));
    assert forall k :: 0 <= k < i ==> s[..i][k] == s[k];
  }

  /** A prefix of a digit string never denotes more than the whole string. */
  lemma {:induction false} DigitsPrefixAtMost(t: string, i: nat)
    requires AllDigits(t) && i <= |t|
    ensures AllDigits(t[..i]) && DigitsValue(t[..i]) <= DigitsValue(t)
    decreases |t|
  {
    if i < |t| {
      var u := t[..|t| - 1];
      assert t[..i] == u[..i];
      DigitsPrefixAtMost(u, i);
    } else {
      assert t[..i] == t;
    }
  }

  /** Go's `ParseUint` gives up with a range error as soon as the digits read
      so far exceed 2^64 - 1, before it looks at any later character: the
      leading digits after the sign denote more than 64 bits hold. */
  predicate AtoiOverflows(s: string)
  {
    DigitsValue(LeadingDigits(Unsigned(s))) > Uint64Max
  }

  /** The integer `strconv.Atoi` returns beside its error: the nearest 64-bit
      bound on a range error, and 0 on a syntax error that Go meets before
      any overflow. */
  function AtoiValue(s: string): (n: int)
    ensures Int64Min <= n <= Int64Max
    ensures Atoi(s).Some? ==> n == Atoi(s).value
    ensures AtoiOverflows(s) ==> |s| > 0 && n == (if s[0] == '-' then Int64Min else Int64Max)
    ensures AtoiSyntax(s).None? && !AtoiOverflows(s) ==> n == 0
  {
    if AtoiOverflows(s) then
      assert |s| > 0;
      AtoiOverflowIsError(s);
      if s[0] == '-' then Int64Min else Int64Max
    else match AtoiSyntax(s)
      case Some(v) => if v < Int64Min then Int64Min else if v > Int64Max then Int64Max else v
      case None => 0
  }

  /** An overflow never leaves `Atoi` without an error. */
  lemma AtoiOverflowIsError(s: string)
    requires AtoiOverflows(s)
    ensures Atoi(s).None?
  {
    var body := Unsigned(s);
    if AtoiSyntax(s).Some? {
      LeadingDigitsAt(body, |body|);
      assert body[..|body|] == body;
    }
  }

  /** Leading digits beyond 64 bits decide the value whatever follows them:
      `Atoi("99999999999999999999x")` returns the largest int64. */
  lemma AtoiValueOverflowThenJunk(w: string, rest: string)
    requires AllDigits(w) && DigitsValue(w) > Uint64Max
    requires |rest| == 0 || !IsDigit(rest[0])
    ensures AtoiValue(w + rest) == Int64Max
    ensures AtoiValue("-" + w + rest) == Int64Min
  {
    var s := w + rest;
    var t := "-" + s;
    assert "-" + w + rest == t;
    OverflowingDigits(w, rest);
    assert Unsigned(t) == s by { assert t[1..] == s; }
    assert AtoiOverflows(t);
  }

  /** The leading digits of `w + rest` are `w`, so the text overflows. */
  lemma OverflowingDigits(w: string, rest: string)
    requires AllDigits(w) && DigitsValue(w) > Uint64Max
    requires |rest| == 0 || !IsDigit(rest[0])
    ensures |w| > 0 && IsDigit((w + rest)[0])
    ensures Unsigned(w + rest) == w + rest && AtoiOverflows(w + rest)
  {
    var s := w + rest;
    assert |w| > 0;
    assert s[0] == w[0];
    assert s[..|w|] == w;
    LeadingDigitsAt(s, |w|);
  }

  /** How the digit loop of Go's `ParseUint` ends. */
  datatype UintScan = Read(value: nat) | SyntaxError | RangeError

  /** The digit loop of `strconv.ParseUint(body, 10, 64)`: a syntax error at
      the first non-digit, a range error as soon as the value read so far
      passes 2^64 - 1, whichever comes first. */
  method ScanUint64(body: string) returns (r: UintScan)
    ensures r.RangeError? <==> DigitsValue(LeadingDigits(body)) > Uint64Max
    ensures r.Read? <==> AllDigits(body) && DigitsValue(body) <= Uint64Max
    ensures r.Read? ==> r.value == DigitsValue(body)
  {
    var u := 0;
    var i := 0;
    while i < |body|
      invariant 0 <= i <= |body|
      invariant AllDigits(body[..i]) && u == DigitsValue(body[..i]) && u <= Uint64Max
    {
      if !IsDigit(body[i]) {
        LeadingDigitsAt(body, i);
        return SyntaxError;
      }
      var next := 10 * u + DigitValue(body[i]);
      assert body[..i + 1][..i] == body[..i];
      if next > Uint64Max {
        var lead := LeadingDigits(body);
        assert lead[..i + 1] == body[..i + 1];
        DigitsPrefixAtMost(lead, i + 1);
        if AllDigits(body) {
          assert body[..|body|] == body;
          LeadingDigitsAt(body, |body|);
        }
        return RangeError;
      }
      u := next;
      i := i + 1;
    }
    assert body[..i] == body;
    LeadingDigitsAt(body, i);
    return Read(u);
  }

  /** `strconv.Atoi` as Go writes it on a 64-bit platform: the sign, then
      `ParseUint`'s digit loop, then the signed range check of `ParseInt`.
      (Atoi's fast path for short text reaches the same results.) */
  method ParseInt64(s: string) returns (n: int, ok: bool)
    ensures n == AtoiValue(s)
    ensures ok <==> Atoi(s).Some?
  {
    if |s| == 0 {
      return 0, false;
    }
    var neg := s[0] == '-';
    var body := Unsigned(s);
    if |body| == 0 {
      assert LeadingDigits(body) == "";
      return 0, false;
    }
    var scan := ScanUint64(body);
    match scan
    case SyntaxError =>
      assert AtoiSyntax(s).None? by {
        if |s| > 0 && (s[0] == '+' || s[0] == '-') {
          assert s[1..] == body;
        }
      }
      return 0, false;
    case RangeError =>
      AtoiOverflowIsError(s);
      return (if neg then Int64Min else Int64Max), false;
    case Read(u) =>
      LeadingDigitsAt(body, |body|);
      assert body[..|body|] == body;
      if !neg && u > Int64Max {
        return Int64Max, false;
      }
      if neg && u > -Int64Min {
        return Int64Min, false;
      }
      var v: int := u;
      return (if neg then -v else v), true;
  }

  function Pow10(k: nat): (p: nat)
    ensures p >= 1
  {
    if k == 0 then 1 else 10 * Pow10(k - 1)
  }

  /** The decimal point. */
  predicate IsPoint(c: char)
  {
    c == '.'
  }

  /** Where the first decimal point of `s` stands, `|s|` when there is none. */
  function PointIndex(s: string): (i: nat)
    ensures i <= |s|
    ensures forall k :: 0 <= k < i ==> s[k] != '.'
    ensures i < |s| ==> s[i] == '.'
  {
    FindFirst(s, IsPoint)
  }

  /** An exact decimal number: (-1 if `negative`) * mantissa / 10^scale. */
  datatype Decimal = Decimal(negative: bool, mantissa: nat, scale: nat)

  /** The decimal literals both `strconv.ParseFloat` and JavaScript `Number()`
      accept without an exponent: an optional sign, digits, an optional `.` and
      more digits, at least one digit in all. */
  function ParseDecimal(s: string): (r: Option<Decimal>)
    ensures |s| > 0 && AllDigits(s) ==> r == Some(Decimal(false, DigitsValue(s), 0))
    ensures r.Some? ==> |s| > 0
  {
    var negative := |s| > 0 && s[0] == '-';
    var body := Unsigned(s);
    var dot := FindFirst(body, IsPoint);
    var whole := body[..dot];
    var frac := if dot < |body| then body[dot + 1..] else "";
    assert |s| > 0 && AllDigits(s) ==> body == s && whole == s && frac == "" && whole + frac == s;
    if AllDigits(whole) && AllDigits(frac) && |whole| + |frac| > 0 then
      Some(Decimal(negative, DigitsValue(whole + frac), |frac|))
    else None
  }

  /** The decimal-literal grammar character by character: after an optional
      sign, only digits and points, at most one point, at least one digit. */
  predicate IsDecimalLiteral(s: string)
  {
    DecimalBody(if |s| > 0 && (s[0] == '+' || s[0] == '-') then s[1..] else s)
  }

  /** Digits and points, at most one point, at least one digit. */
  predicate DecimalBody(b: string)
  {
    && (forall k :: 0 <= k < |b| ==> IsDigit(b[k]) || b[k] == '.')
    && (forall k, m :: 0 <= k < m < |b| && b[k] == '.' ==> b[m] != '.')
    && (exists k :: 0 <= k < |b| && IsDigit(b[k]))
  }

  /** `ParseDecimal` accepts exactly the decimal literals: `"abc"`, `"-"`,
      `"."` and `"1.2.3"` are rejected. */
  lemma ParseDecimalAccepts(s: string)
    ensures ParseDecimal(s).Some? <==> IsDecimalLiteral(s)
  {
    var b := Unsigned(s);
    var dot := FindFirst(b, IsPoint);
    var whole := b[..dot];
    var frac := if dot < |b| then b[dot + 1..] else "";
    assert IsDecimalLiteral(s) <==> DecimalBody(b);
    if AllDigits(whole) && AllDigits(frac) && |whole| + |frac| > 0 {
      assert forall k :: 0 <= k < |b| ==> IsDigit(b[k]) || b[k] == '.' by {
        forall k | 0 <= k < |b| ensures IsDigit(b[k]) || b[k] == '.' {
          if k < dot {
            assert b[k] == whole[k];
          } else if k > dot {
            assert b[k] == frac[k - dot - 1];
          }
        }
      }
      assert forall k, m :: 0 <= k < m < |b| && b[k] == '.' ==> b[m] != '.' by {
        forall k, m | 0 <= k < m < |b| && b[k] == '.' ensures b[m] != '.' {
          assert k >= dot;
          assert b[m] == frac[m - dot - 1];
        }
      }
      if |whole| > 0 {
        assert IsDigit(b[0]) by { assert b[0] == whole[0]; }
      } else {
        assert IsDigit(b[dot + 1]) by { assert b[dot + 1] == frac[0]; }
      }
      assert DecimalBody(b);
    } else {
      DecimalBodySplit(b, dot);
    }
  }

  /** A decimal body splits at its first point into digits before and after,
      with at least one digit in all. */
  lemma DecimalBodySplit(b: string, dot: nat)
    requires dot == FindFirst(b, IsPoint)
    ensures DecimalBody(b) ==>
              var whole := b[..dot];
              var frac := if dot < |b| then b[dot + 1..] else "";
              AllDigits(whole) && AllDigits(frac) && |whole| + |frac| > 0
  {
    if DecimalBody(b) {
      var whole := b[..dot];
      var frac := if dot < |b| then b[dot + 1..] else "";
      assert AllDigits(whole) by {
        forall k | 0 <= k < |whole| ensures IsDigit(whole[k]) {
          assert whole[k] == b[k] && b[k] != '.';
        }
      }
      assert AllDigits(frac) by {
        if dot < |b| {
          forall k | 0 <= k < |frac| ensures IsDigit(frac[k]) {
            assert frac[k] == b[dot + 1 + k];
            assert b[dot] == '.' && b[dot + 1 + k] != '.';
          }
        }
      }
      var k :| 0 <= k < |b| && IsDigit(b[k]);
      if k < dot {
        assert whole[k] == b[k];
      } else {
        assert k != dot;
        assert frac[k - dot - 1] == b[k];
      }
    }
  }

  /** A sign, whole digits, a point and fraction digits denote the decimal
      of all those digits, scaled by the fraction's length. */
  lemma ParseDecimalPoint(sign: string, w: string, f: string)
    requires sign == "" || sign == "+" || sign == "-"
    requires AllDigits(w) && AllDigits(f) && |w| + |f| > 0
    ensures ParseDecimal(sign + w + "." + f) == Some(Decimal(sign == "-", DigitsValue(w + f), |f|))
  {
    var body := w + "." + f;
    assert body[0] != '+' && body[0] != '-' by {
      if |w| > 0 {
        assert body[0] == w[0];
      }
    }
    var s := sign + w + "." + f;
    assert s == sign + body;
    SignedText(sign, body);
    PointAfterDigits(w, f);
    DecimalParts(s, w, f);
  }

  /** `ParseDecimal` reads the whole and fraction digits around the point. */
  lemma DecimalParts(s: string, w: string, f: string)
    requires AllDigits(w) && AllDigits(f) && |w| + |f| > 0
    requires var body := Unsigned(s); var dot := PointIndex(body);
             dot < |body| && body[..dot] == w && body[dot + 1..] == f
    ensures ParseDecimal(s) == Some(Decimal(|s| > 0 && s[0] == '-', DigitsValue(w + f), |f|))
  {
  }

  /** The first point of `w.f` for a digit string `w` follows `w`. */
  lemma PointAfterDigits(w: string, f: string)
    requires AllDigits(w)
    ensures var body := w + "." + f; var dot := PointIndex(body);
            dot == |w| && body[..dot] == w && body[dot + 1..] == f
  {
    var body := w + "." + f;
    assert forall k :: 0 <= k < |w| ==> body[k] == w[k] && body[k] != '.';
    assert body[|w|] == '.';
  }

  /** A sign and digits without a point denote that whole number. */
  lemma ParseDecimalWhole(sign: string, w: string)
    requires sign == "" || sign == "+" || sign == "-"
    requires |w| > 0 && AllDigits(w)
    ensures ParseDecimal(sign + w) == Some(Decimal(sign == "-", DigitsValue(w), 0))
  {
    SignedText(sign, w);
    assert PointIndex(w) == |w|;
    assert w[..|w|] == w && w + "" == w;
  }

  lemma SignedText(sign: string, body: string)
    requires sign == "" || sign == "+" || sign == "-"
    requires |body| > 0 ==> body[0] != '+' && body[0] != '-'
    ensures Unsigned(sign + body) == body
    ensures |sign + body| > 0 && (sign + body)[0] == '-' <==> sign == "-"
  {
    if sign != "" {
      assert (sign + body)[1..] == body;
    }
  }

  /** Go `math.Round` of an exact decimal: nearest integer, halves rounded
      away from zero. */
  function RoundHalfAway(d: Decimal): (r: int)
    ensures var p := Pow10(d.scale); var q := if d.negative then -r else r;
            q >= 0 && 2 * p * q <= 2 * d.mantissa + p < 2 * p * (q + 1)
  {
    var p := Pow10(d.scale);
    var q := RoundDiv(d.mantissa, p);
    assert 0 < 2 * p * (q + 1);
    MulSign(q + 1, 2 * p);
    if d.negative then -q else q
  }

  /** JavaScript `Math.round(n / d)` for a positive denominator: the nearest
      integer, halves rounded towards +infinity. */
  function RoundDiv(n: int, d: int): (r: int)
    requires d > 0
    ensures 2 * d * r <= 2 * n + d < 2 * d * (r + 1)
  {
    (2 * n + d) / (2 * d)
  }

  /** The exact value of `d` is the integer `v`. */
  predicate DenotesInteger(d: Decimal, v: int)
  {
    (if d.negative then -v else v) * Pow10(d.scale) == d.mantissa
  }

  /** The integer an exact decimal denotes, if it denotes one. */
  function DecimalInteger(d: Decimal): (r: Option<int>)
    ensures r.Some? ==> DenotesInteger(d, r.value)
    ensures forall v :: DenotesInteger(d, v) ==> r == Some(v)
  {
    var p := Pow10(d.scale);
    var m: int := d.mantissa;
    forall v | DenotesInteger(d, v)
      ensures m % p == 0 && (if d.negative then -v else v) == m / p
    {
      MultipleOf(m, p, if d.negative then -v else v);
    }
    if m % p == 0 then
      DivisionExact(m, p);
      Some(if d.negative then -(m / p) else m / p)
    else None
  }

  /** JavaScript `Number(s)` followed by `Number.isInteger`: the integer the
      text denotes, or `None` when it is not an integer (or not a number).
      Blank text is the number 0. */
  function JsIntegerValue(s: string): (r: Option<int>)
    ensures JsTrim(s) == "" ==> r == Some(0)
    ensures JsTrim(s) != "" && !IsDecimalLiteral(JsTrim(s)) ==> r.None?
    ensures JsTrim(s) != "" && r.Some? ==>
              ParseDecimal(JsTrim(s)).Some? && DenotesInteger(ParseDecimal(JsTrim(s)).value, r.value)
  {
    var t := JsTrim(s);
    if t == "" then Some(0)
    else match ParseDecimal(t)
      case Some(d) =>
        ParseDecimalAccepts(t);
        DecimalInteger(d)
      case None => None
  }

  /** `JsIntegerValue` gives `v` exactly when the trimmed text is blank and `v`
      is 0, or is a decimal literal whose exact value is `v`: a fraction such
      as `"1.5"` gives `None`, and `"+22"` and `"22.0"` both give 22. */
  lemma JsIntegerExact(s: string, v: int)
    ensures JsIntegerValue(s) == Some(v) <==>
              (JsTrim(s) == "" && v == 0)
              || (JsTrim(s) != "" && ParseDecimal(JsTrim(s)).Some?
                  && DenotesInteger(ParseDecimal(JsTrim(s)).value, v))
  {
  }

  /** Division by a positive `p` that leaves no remainder is exact, for the
      dividend and for its negation. */
  lemma DivisionExact(m: int, p: int)
    requires p > 0
    ensures m % p == 0 ==> (m / p) * p == m
  {
  }

  /** A multiple of a positive `p` leaves no remainder and divides back. */
  lemma MultipleOf(m: int, p: int, w: int)
    requires p > 0
    ensures w * p == m ==> m % p == 0 && m / p == w
  {
    var q := m / p;
    MulSign(w - q, p);
    assert (w - q) * p == w * p - q * p;
  }

  /** A product with a positive factor `p` is at least `p` when the other
      factor is positive, and at most `-p` when it is negative. */
  lemma MulSign(a: int, p: int)
    requires p > 0
    ensures a >= 1 ==> a * p >= p
    ensures a <= -1 ==> a * p <= -p
  {
  }

  /** A sign before a port number does not stop it reading as that number. */
  lemma JsIntegerPlusSign()
    ensures JsIntegerValue("+22") == Some(22)
  {
    var digits := "22";
    assert AllDigits(digits) && DigitsValue(digits) == 22;
    assert "+22" == "+" + digits;
    JsTrimUnpadded("+22");
    ParseDecimalWhole("+", digits);
    JsIntegerExact("+22", 22);
  }

  /** A zero fraction still reads as the whole number. */
  lemma JsIntegerZeroFraction()
    ensures JsIntegerValue("22.0") == Some(22)
  {
    var digits := "22";
    assert AllDigits(digits) && AllDigits("0");
    assert "22.0" == "" + digits + "." + "0";
    assert digits + "0" == "220" && DigitsValue("220") == 220;
    JsTrimUnpadded("22.0");
    ParseDecimalPoint("", digits, "0");
    assert Pow10(1) == 10;
    JsIntegerExact("22.0", 22);
  }

  /** A fraction is not an integer. */
  lemma JsIntegerFraction()
    ensures JsIntegerValue("1.5") == None
  {
    assert AllDigits("1") && AllDigits("5");
    assert "1.5" == "" + "1" + "." + "5";
    assert "1" + "5" == "15" && DigitsValue("15") == 15;
    JsTrimUnpadded("1.5");
    ParseDecimalPoint("", "1", "5");
    assert Pow10(1) == 10;
  }

  /** A word is not a number. */
  lemma JsIntegerWord()
    ensures JsIntegerValue("abc") == None
  {
    JsTrimUnpadded("abc");
    assert !IsDigit("abc"[0]) && "abc"[0] != '.';
  }

  /** A lone sign is not a number. */
  lemma JsIntegerBareSign()
    ensures JsIntegerValue("-") == None
  {
    JsTrimUnpadded("-");
    assert "-"[1..] == "";
  }

  /** A text beginning and ending with a non-space character is not trimmed. */
  lemma JsTrimUnpadded(s: string)
    requires |s| > 0 && !IsJsSpace(s[0]) && !IsJsSpace(s[|s| - 1])
    ensures JsTrim(s) == s
  {
  }

  /** A run of digits is the integer it denotes. */
  lemma JsIntegerOfDigits(s: string)
    ensures |s| > 0 && AllDigits(s) ==> JsIntegerValue(s) == Some(DigitsValue(s))
  {
    if |s| > 0 && AllDigits(s) {
      assert IsDigit(s[0]) && IsDigit(s[|s| - 1]);
      JsTrimUnpadded(s);
      ParseDecimalWhole("", s);
      assert "" + s == s;
      assert DenotesInteger(Decimal(false, DigitsValue(s), 0), DigitsValue(s));
    }
  }

}
