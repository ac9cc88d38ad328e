/** Strings as the Go back end and the TypeScript front end see them: optional
    values, the two languages' whitespace sets, trimming, single-character
    splitting and joining, whitespace-separated fields, and the byte-wise
    ordering Go uses for `<` on strings. A Go rune and a JavaScript code point
    are both modelled as a Dafny `char`. */
module Text {

  datatype Option<+T> = None | Some(value: T) {
    /** The value, or `default` when absent (JavaScript `??`). */
    function GetOr(default: T): T
    {
      match this
      case Some(v) => v
      case None => default
    }
  }

  datatype Result<+T, +E> = Ok(value: T) | Err(error: E)

  /** Go's `unicode.IsSpace`: the Latin-1 spaces plus the Unicode White_Space
      property. This is the set `strings.TrimSpace` and `strings.Fields` use. */
  predicate IsGoSpace(c: char)
  {
    || c == '\t' || c == '\n' || c == '\U{000B}' || c == '\U{000C}' || c == '\r' || c == ' '
    || c == '\U{0085}' || c == '\U{00A0}' || c == '\U{1680}'
    || ('\U{2000}' <= c <= '\U{200A}')
    || c == '\U{2028}' || c == '\U{2029}' || c == '\U{202F}' || c == '\U{205F}' || c == '\U{3000}'
  }

  /** JavaScript's WhiteSpace and LineTerminator productions, the set
      `String.prototype.trim` removes. It differs from Go's set: U+FEFF is
      whitespace here and U+0085 is not. */
  predicate IsJsSpace(c: char)
  {
    || c == '\t' || c == '\n' || c == '\U{000B}' || c == '\U{000C}' || c == '\r' || c == ' '
    || c == '\U{00A0}' || c == '\U{1680}' || c == '\U{FEFF}'
    || ('\U{2000}' <= c <= '\U{200A}')
    || c == '\U{2028}' || c == '\U{2029}' || c == '\U{202F}' || c == '\U{205F}' || c == '\U{3000}'
  }

  /** Number of leading characters of `s` that satisfy `ws`. */
  function LeadingCount(s: string, ws: char -> bool): (i: nat)
    ensures i <= |s|
    ensures forall k :: 0 <= k < i ==> ws(s[k])
    ensures i < |s| ==> !ws(s[i])
  {
    if |s| == 0 || !ws(s[0]) then 0 else 1 + LeadingCount(s[1..], ws)
  }

  /** Length of `s` once its trailing characters that satisfy `ws` are cut. */
  function TrailingCut(s: string, ws: char -> bool): (j: nat)
    ensures j <= |s|
    ensures forall k :: j <= k < |s| ==> ws(s[k])
    ensures j > 0 ==> !ws(s[j - 1])
  {
    if |s| == 0 || !ws(s[|s| - 1]) then |s| else TrailingCut(s[..|s| - 1], ws)
  }

  /** `s` from index `i` on, the text `s[i..]` denotes, built character by
      character. */
  function Suffix(s: string, i: nat): (r: string)
    requires i <= |s|
    ensures |r| == |s| - i
    ensures forall k :: 0 <= k < |r| ==> r[k] == s[i + k]
  {
    seq(|s| - i, k requires 0 <= k < |s| - i => s[i + k])
  }

  /** `Suffix` is the slice from `i`. */
  lemma SuffixIsSlice(s: string, i: nat)
    requires i <= |s|
    ensures Suffix(s, i) == s[i..]
  {
    assert forall k :: 0 <= k < |s| - i ==> Suffix(s, i)[k] == s[i..][k];
  }

  /** `s` without its leading and trailing `ws` characters. */
  function Trim(s: string, ws: char -> bool): (r: string)
    ensures |r| <= |s|
    ensures |r| == 0 <==> forall k :: 0 <= k < |s| ==> ws(s[k])
    ensures |r| > 0 ==> !ws(r[0]) && !ws(r[|r| - 1])
    ensures (|s| == 0 || (!ws(s[0]) && !ws(s[|s| - 1]))) ==> r == s
  {
    var j := TrailingCut(s, ws);
    var i := LeadingCount(s[..j], ws);
    assert forall k :: 0 <= k < i ==> ws(s[k]) by {
      forall k | 0 <= k < i ensures ws(s[k]) { assert s[..j][k] == s[k]; }
    }
    Suffix(s[..j], i)
  }

  /** Go `strings.TrimSpace`. */
  function GoTrimSpace(s: string): string
  {
    Trim(s, IsGoSpace)
  }

  /** JavaScript `String.prototype.trim`. */
  function JsTrim(s: string): string
  {
    Trim(s, IsJsSpace)
  }

  /** `Trim` keeps the text between the leading and the trailing runs. */
  lemma TrimSlice(s: string, ws: char -> bool)
    ensures var j := TrailingCut(s, ws);
            Trim(s, ws) == s[LeadingCount(s[..j], ws)..j]
  {
    var j := TrailingCut(s, ws);
    SuffixIsSlice(s[..j], LeadingCount(s[..j], ws));
  }

  /** `Trim` removes a leading and a trailing run of `ws` characters and
      nothing else: the result is a slice of `s` with only `ws` characters
      before and after it. With `Trim`'s own contract (the result's ends are
      not `ws`) this determines the result; see `TrimExact`. */
  lemma TrimIsSlice(s: string, ws: char -> bool)
    ensures exists i, j :: 0 <= i <= j <= |s| && Trim(s, ws) == s[i..j]
                           && (forall k :: 0 <= k < i ==> ws(s[k]))
                           && (forall k :: j <= k < |s| ==> ws(s[k]))
  {
    var j := TrailingCut(s, ws);
    var i := LeadingCount(s[..j], ws);
    TrimSlice(s, ws);
    assert forall k :: 0 <= k < i ==> ws(s[k]) by {
      forall k | 0 <= k < i ensures ws(s[k]) { assert s[..j][k] == s[k]; }
    }
  }

  /** Any slice `s[i..j]` with only `ws` characters outside it and no `ws`
      character at its ends is what `Trim` returns. */
  lemma TrimExact(s: string, ws: char -> bool, i: nat, j: nat)
    ensures i <= j <= |s|
            && (forall k :: 0 <= k < i ==> ws(s[k]))
            && (forall k :: j <= k < |s| ==> ws(s[k]))
            && (i == j || (!ws(s[i]) && !ws(s[j - 1])))
            ==> Trim(s, ws) == s[i..j]
  {
    if i <= j <= |s|
       && (forall k :: 0 <= k < i ==> ws(s[k]))
       && (forall k :: j <= k < |s| ==> ws(s[k]))
       && (i == j || (!ws(s[i]) && !ws(s[j - 1])))
    {
      if i == j {
        assert forall k :: 0 <= k < |s| ==> ws(s[k]) by {
          forall k | 0 <= k < |s| ensures ws(s[k]) { if k >= i { assert k >= j; } }
        }
      } else {
        var j' := TrailingCut(s, ws);
        var i' := LeadingCount(s[..j'], ws);
        assert j' == j by {
          assert !ws(s[j - 1]);
        }
        assert i' == i by {
          assert s[..j'][i] == s[i];
        }
        TrimSlice(s, ws);
      }
    }
  }

  /** Text already trimmed, after one space, trims back to itself, as in the
      comma-and-space separated columns nvidia-smi prints and in a directive's
      value after its keyword. */
  lemma TrimAfterSpace(w: string)
    requires GoTrimSpace(w) == w
    ensures GoTrimSpace(" " + w) == w
  {
    var s := " " + w;
    if |w| == 0 {
      assert forall k :: 0 <= k < |s| ==> IsGoSpace(s[k]);
    } else {
      assert !IsGoSpace(w[0]) && !IsGoSpace(w[|w| - 1]);
      assert TrailingCut(s, IsGoSpace) == |s| by {
        assert s[|s| - 1] == w[|w| - 1];
      }
      assert s[..|s|] == s;
      assert LeadingCount(s, IsGoSpace) == 1 by {
        assert s[1..] == w;
        assert LeadingCount(w, IsGoSpace) == 0;
      }
      TrimSlice(s, IsGoSpace);
      assert s[1..|s|] == w;
    }
  }

  /** Trimming twice trims nothing more. */
  lemma TrimIdempotent(s: string, ws: char -> bool)
    ensures Trim(Trim(s, ws), ws) == Trim(s, ws)
  {
  }

  /** Go `strings.Split(s, string(c))`: the pieces of `s` between occurrences of
      `c`. There is always at least one piece, and no piece contains `c`. */
  function Split(s: string, c: char): (r: seq<string>)
    ensures |r| >= 1
    ensures forall i :: 0 <= i < |r| ==> c !in r[i]
    ensures c !in s ==> r == [s]
  {
    if |s| == 0 then [""]
    else
      var rest := Split(s[1..], c);
      if s[0] == c then [""] + rest
      else
        assert c !in s ==> c !in s[1..] && [s[0]] + s[1..] == s;
        [[s[0]] + rest[0]] + rest[1..]
  }

  /** JavaScript `parts.join(sep)` and Go `strings.Join`. */
  function Join(parts: seq<string>, sep: string): string
  {
    if |parts| == 0 then ""
    else if |parts| == 1 then parts[0]
    else parts[0] + sep + Join(parts[1..], sep)
  }

  /** Splitting a piece free of `c` and then whatever follows the first `c`. */
  lemma {:induction false} SplitPrefix(x: string, c: char, y: string)
    requires c !in x
    ensures Split(x + [c] + y, c) == [x] + Split(y, c)
    decreases |x|
  {
    if |x| == 0 {
      assert x + [c] + y == [c] + y;
      assert ([c] + y)[1..] == y;
    } else {
      var s := x + [c] + y;
      assert s[0] == x[0];
      assert s[1..] == x[1..] + [c] + y;
      SplitPrefix(x[1..], c, y);
      assert [x[0]] + x[1..] == x;
    }
  }

  /** Joining with `c` and splitting on `c` gives the pieces back, provided no
      piece contains `c`. */
  lemma {:induction false} SplitJoin(parts: seq<string>, c: char)
    requires |parts| >= 1
    requires forall i :: 0 <= i < |parts| ==> c !in parts[i]
    ensures Split(Join(parts, [c]), c) == parts
    decreases |parts|
  {
    if |parts| > 1 {
      SplitJoin(parts[1..], c);
      SplitPrefix(parts[0], c, Join(parts[1..], [c]));
      assert [parts[0]] + parts[1..] == parts;
    }
  }

  /** Splitting on `c` and joining with `c` gives the string back. */
  lemma {:induction false} JoinSplit(s: string, c: char)
    ensures Join(Split(s, c), [c]) == s
    decreases |s|
  {
    if |s| > 0 {
      JoinSplit(s[1..], c);
      var rest := Split(s[1..], c);
      if s[0] == c {
        assert Join([""] + rest, [c]) == "" + [c] + Join(rest, [c]);
      } else {
        var r := [[s[0]] + rest[0]] + rest[1..];
        if |rest| == 1 {
          assert r == [[s[0]] + rest[0]];
        } else {
          assert r[1..] == rest[1..];
          assert Join(rest, [c]) == rest[0] + [c] + Join(rest[1..], [c]);
        }
      }
      assert s == [s[0]] + s[1..];
    }
  }

  /** Joined pieces begin with the first piece's first character and end with
      the last piece's last character. */
  lemma {:induction false} JoinEnds(parts: seq<string>, sep: string)
    requires |parts| >= 1 && forall i :: 0 <= i < |parts| ==> |parts[i]| > 0
    ensures var j := Join(parts, sep);
            |j| > 0 && j[0] == parts[0][0] && j[|j| - 1] == parts[|parts| - 1][|parts[|parts| - 1]| - 1]
    decreases |parts|
  {
    if |parts| > 1 {
      JoinEnds(parts[1..], sep);
    }
  }

  /** A character in neither the pieces nor the separator is not in the join. */
  lemma {:induction false} NotInJoin(parts: seq<string>, sep: string, c: char)
    requires c !in sep
    requires forall i :: 0 <= i < |parts| ==> c !in parts[i]
    ensures c !in Join(parts, sep)
    decreases |parts|
  {
    if |parts| > 1 {
      NotInJoin(parts[1..], sep, c);
    }
  }

  /** Index of the first character of `s` satisfying `p`, or `|s|`. */
  function FindFirst(s: string, p: char -> bool): (i: nat)
    ensures i <= |s|
    ensures forall k :: 0 <= k < i ==> !p(s[k])
    ensures i < |s| ==> p(s[i])
  {
    if |s| == 0 || p(s[0]) then 0 else 1 + FindFirst(s[1..], p)
  }

  /** Go `strings.Fields`: the maximal runs of non-space characters. */
  function Fields(s: string): (r: seq<string>)
    ensures forall i :: 0 <= i < |r| ==> |r[i]| > 0
    ensures forall i, k :: 0 <= i < |r| && 0 <= k < |r[i]| ==> !IsGoSpace(r[i][k])
    decreases |s|
  {
    var i := LeadingCount(s, IsGoSpace);
    if i == |s| then []
    else
      var t := Suffix(s, i);
      var n := FindFirst(t, IsGoSpace);
      assert t[0] == s[i] && !IsGoSpace(t[0]);
      var w := t[..n];
      assert |w| == n > 0;
      assert forall k :: 0 <= k < |w| ==> w[k] == t[k] && !IsGoSpace(w[k]);
      var rest := Fields(Suffix(t, n));
      var r := [w] + rest;
      assert forall j :: 0 <= j < |r| ==> r[j] == if j == 0 then w else rest[j - 1];
      assert !IsGoSpace(s[i]);
      r
  }

  /** Blank text, and only blank text, has no fields. */
  lemma FieldsBlank(s: string)
    ensures (forall k :: 0 <= k < |s| ==> IsGoSpace(s[k])) <==> Fields(s) == []
  {
    var i := LeadingCount(s, IsGoSpace);
    if i < |s| {
      assert !IsGoSpace(s[i]);
    }
  }

  /** A non-empty string without whitespace is one field. */
  lemma {:induction false} FieldsOfWord(w: string)
    requires |w| > 0
    requires forall k :: 0 <= k < |w| ==> !IsGoSpace(w[k])
    ensures Fields(w) == [w]
  {
    assert LeadingCount(w, IsGoSpace) == 0;
    assert FindFirst(w, IsGoSpace) == |w|;
    assert Fields("") == [];
    SuffixIsSlice(w, 0);
    var t := Suffix(w, 0);
    SuffixIsSlice(t, |w|);
    assert t[..|w|] == w && Suffix(t, |w|) == "";
    assert Fields(w) == [t[..|w|]] + Fields(Suffix(t, |w|));
  }

  /** Fields are read left to right: leading whitespace, then a word that
      ends at whitespace or at the end of the text, then the fields of the
      rest. */
  lemma FieldsStep(sp: string, w: string, rest: string)
    requires forall k :: 0 <= k < |sp| ==> IsGoSpace(sp[k])
    requires |w| > 0 && forall k :: 0 <= k < |w| ==> !IsGoSpace(w[k])
    requires |rest| > 0 ==> IsGoSpace(rest[0])
    ensures Fields(sp + w + rest) == [w] + Fields(rest)
  {
    var t := w + rest;
    var s := sp + t;
    assert sp + w + rest == s;
    SpacesThenWord(sp, t);
    WordThenSpace(w, rest);
    assert s[|sp|..] == t;
    SuffixIsSlice(s, |sp|);
    SuffixIsSlice(t, |w|);
  }

  /** Whitespace before a non-space character is exactly the leading run. */
  lemma SpacesThenWord(sp: string, t: string)
    requires forall k :: 0 <= k < |sp| ==> IsGoSpace(sp[k])
    requires |t| > 0 && !IsGoSpace(t[0])
    ensures LeadingCount(sp + t, IsGoSpace) == |sp|
  {
    var s := sp + t;
    assert forall k :: 0 <= k < |sp| ==> s[k] == sp[k];
    assert s[|sp|] == t[0];
    LeadingCountAt(s, IsGoSpace, |sp|);
  }

  /** A word followed by whitespace (or nothing) ends where the word ends. */
  lemma WordThenSpace(w: string, rest: string)
    requires forall k :: 0 <= k < |w| ==> !IsGoSpace(w[k])
    requires |rest| > 0 ==> IsGoSpace(rest[0])
    ensures FindFirst(w + rest, IsGoSpace) == |w|
    ensures (w + rest)[..|w|] == w && (w + rest)[|w|..] == rest
  {
    var t := w + rest;
    assert forall k :: 0 <= k < |w| ==> t[k] == w[k];
    assert |rest| > 0 ==> t[|w|] == rest[0];
    FindFirstAt(t, IsGoSpace, |w|);
    assert t[..|w|] == w;
    assert t[|w|..] == rest;
  }

  /** The run `ws` holds up to `i` and breaks at `i` is the leading run. */
  lemma {:induction false} LeadingCountAt(s: string, ws: char -> bool, i: nat)
    requires i <= |s| && forall k :: 0 <= k < i ==> ws(s[k])
    requires i < |s| ==> !ws(s[i])
    ensures LeadingCount(s, ws) == i
    decreases i
  {
    if i > 0 {
      var u := s[1..];
      assert forall k :: 0 <= k < i - 1 ==> u[k] == s[k + 1];
      LeadingCountAt(u, ws, i - 1);
    }
  }

  /** No match before `i` and a match at `i` (or the end) is the first match. */
  lemma {:induction false} FindFirstAt(s: string, p: char -> bool, i: nat)
    requires i <= |s| && forall k :: 0 <= k < i ==> !p(s[k])
    requires i < |s| ==> p(s[i])
    ensures FindFirst(s, p) == i
    decreases i
  {
    if i > 0 {
      var u := s[1..];
      assert forall k :: 0 <= k < i - 1 ==> u[k] == s[k + 1];
      FindFirstAt(u, p, i - 1);
    }
  }

  /** Words joined by single spaces split back into the same words: the
      fields are exactly the text's words, in order. */
  lemma {:induction false} FieldsOfJoin(ws: seq<string>)
    requires forall i :: 0 <= i < |ws| ==> IsWord(ws[i])
    ensures Fields(Join(ws, " ")) == ws
    decreases |ws|
  {
    if |ws| == 0 {
      assert Join(ws, " ") == "";
    } else if |ws| == 1 {
      assert Join(ws, " ") == ws[0];
      FieldsOfWord(ws[0]);
    } else {
      var tail := ws[1..];
      assert forall i :: 0 <= i < |tail| ==> IsWord(tail[i]) by {
        forall i | 0 <= i < |tail| ensures IsWord(tail[i]) {
          assert tail[i] == ws[i + 1];
        }
      }
      FieldsOfJoin(tail);
      FieldsOfJoinCons(ws);
    }
  }

  lemma FieldsOfJoinCons(ws: seq<string>)
    requires |ws| >= 2 && IsWord(ws[0])
    requires Fields(Join(ws[1..], " ")) == ws[1..]
    ensures Fields(Join(ws, " ")) == ws
  {
    var tail := ws[1..];
    var j, jt := Join(ws, " "), Join(tail, " ");
    assert j == ws[0] + " " + jt;
    FieldsOfJoinStep(ws[0], jt);
    assert [ws[0]] + tail == ws;
  }

  /** A text of `Fields` form: non-empty and free of whitespace. */
  predicate IsWord(w: string)
  {
    |w| > 0 && forall k :: 0 <= k < |w| ==> !IsGoSpace(w[k])
  }

  lemma FieldsOfJoinStep(w: string, x: string)
    requires IsWord(w)
    ensures Fields(w + " " + x) == [w] + Fields(x)
  {
    var rest := " " + x;
    assert "" + w + rest == w + " " + x;
    FieldsStep("", w, rest);
    FieldsSkipSpace(" ", x);
  }

  /** Leading whitespace does not change the fields. */
  lemma {:induction false} FieldsSkipSpace(sp: string, x: string)
    requires forall k :: 0 <= k < |sp| ==> IsGoSpace(sp[k])
    ensures Fields(sp + x) == Fields(x)
    decreases |sp|
  {
    if |sp| > 0 {
      var y := sp[1..] + x;
      assert sp + x == [sp[0]] + y;
      FieldsSkipSpace(sp[1..], x);
      FieldsSkipOne(sp[0], y);
    } else {
      assert sp + x == x;
    }
  }

  lemma FieldsSkipOne(c: char, y: string)
    requires IsGoSpace(c)
    ensures Fields([c] + y) == Fields(y)
  {
    var s := [c] + y;
    var j := LeadingCount(y, IsGoSpace);
    SpaceCounts(c, y);
    if j < |y| {
      assert s[1 + j..] == y[j..];
      SuffixIsSlice(s, 1 + j);
      SuffixIsSlice(y, j);
    }
  }

  lemma SpaceCounts(c: char, y: string)
    requires IsGoSpace(c)
    ensures LeadingCount([c] + y, IsGoSpace) == 1 + LeadingCount(y, IsGoSpace)
  {
    assert ([c] + y)[1..] == y;
  }

  /** Go's `<` on strings: byte order of the UTF-8 encodings, which is the
      lexicographic order of the code points. */
  predicate StrLess(a: string, b: string)
  {
    if |a| == 0 then |b| > 0
    else if |b| == 0 then false
    else if a[0] != b[0] then a[0] < b[0]
    else StrLess(a[1..], b[1..])
  }

  lemma {:induction false} StrLessIrreflexive(a: string)
    ensures !StrLess(a, a)
    decreases |a|
  {
    if |a| > 0 {
      StrLessIrreflexive(a[1..]);
    }
  }

  lemma {:induction false} StrLessTransitive(a: string, b: string, c: string)
    requires StrLess(a, b) && StrLess(b, c)
    ensures StrLess(a, c)
    decreases |a|
  {
    if |a| > 0 && |b| > 0 && |c| > 0 && a[0] == b[0] && b[0] == c[0] {
      StrLessTransitive(a[1..], b[1..], c[1..]);
    }
  }

  lemma {:induction false} StrLessTotal(a: string, b: string)
    requires a != b
    ensures StrLess(a, b) || StrLess(b, a)
    decreases |a|
  {
    if |a| > 0 && |b| > 0 && a[0] == b[0] {
      assert a == [a[0]] + a[1..];
      assert b == [b[0]] + b[1..];
      StrLessTotal(a[1..], b[1..]);
    }
  }
}
