/** Discovery of connections from an OpenSSH client configuration
    (ssh_config.go): the line lexer (comment stripping, directive splitting,
    value unquoting, keyword matching), the fold of `Host` blocks into
    connections with de-duplication, and the order the list is returned in.
    A configuration file is given as its sequence of lines; reading files and
    following `Include` are left out. */
module SshConfig {
  import opened Text
  import opened Numbers

  // ---------------------------------------------------------------------
  // Comments

  /** Which kinds of quotation are open at some point of a line. */
  datatype Quotes = Quotes(inSingle: bool, inDouble: bool)

  const Unquoted := Quotes(false, false)

  /** A quote character toggles its own kind unless the other kind is open. */
  function QuoteStep(q: Quotes, c: char): Quotes
  {
    if c == '\'' && !q.inDouble then q.(inSingle := !q.inSingle)
    else if c == '"' && !q.inSingle then q.(inDouble := !q.inDouble)
    else q
  }

  /** The quotation state after reading `s` from the start. */
  function QuotesAfter(s: string): Quotes
  {
    if |s| == 0 then Unquoted else QuoteStep(QuotesAfter(s[..|s| - 1]), s[|s| - 1])
  }

  /** Position `i` of `line` holds a `#` outside any quotation: a comment
      starts there. */
  predicate CommentAt(line: string, i: int)
  {
    0 <= i < |line| && line[i] == '#' && QuotesAfter(line[..i]) == Unquoted
  }

  /** Where the scan from position `i` in state `q` finds a comment, or the
      end of the line. */
  function CommentCut(line: string, i: nat, q: Quotes): (n: nat)
    requires i <= |line| && q == QuotesAfter(line[..i])
    ensures i <= n <= |line|
    ensures forall k :: i <= k < n ==> !CommentAt(line, k)
    ensures n < |line| ==> CommentAt(line, n)
    decreases |line| - i
  {
    if i == |line| then |line|
    else if line[i] == '#' && !q.inSingle && !q.inDouble then i
    else
      assert line[..i + 1][..i] == line[..i];
      CommentCut(line, i + 1, QuoteStep(q, line[i]))
  }

  /** The line up to its first unquoted `#`. */
  function StripComments(line: string): (r: string)
    ensures |r| <= |line| && r == line[..|r|]
    ensures forall k :: 0 <= k < |r| ==> !CommentAt(line, k)
    ensures |r| < |line| ==> CommentAt(line, |r|)
    ensures '#' !in line ==> r == line
  {
    assert line[..0] == "";
    line[..CommentCut(line, 0, Unquoted)]
  }

  /** A stripped line has no comment left to strip. */
  lemma StripCommentsIdempotent(line: string)
    ensures StripComments(StripComments(line)) == StripComments(line)
  {
    var r := StripComments(line);
    forall k | 0 <= k < |r|
      ensures !CommentAt(r, k)
    {
      assert r[..k] == line[..k];
      assert !CommentAt(line, k);
    }
    assert |StripComments(r)| == |r|;
  }

  /** Text after an unquoted `#` is dropped whatever it holds. */
  lemma {:induction false} CommentDropped(code: string, comment: string)
    requires '#' !in code && QuotesAfter(code) == Unquoted
    ensures StripComments(code + "#" + comment) == code
  {
    var line := code + "#" + comment;
    assert line[..|code|] == code;
    forall k | 0 <= k < |code|
      ensures !CommentAt(line, k)
    {
      assert line[k] == code[k];
    }
    assert CommentAt(line, |code|);
  }

  // ---------------------------------------------------------------------
  // Directives

  predicate IsDirectiveGap(c: char)
  {
    c == ' ' || c == '\t'
  }

  /** A directive line split at its first space or tab into a keyword and a
      value, both trimmed; a line without a gap is all keyword. */
  function SplitDirective(line: string): (kv: (string, string))
    ensures forall k :: 0 <= k < |kv.0| ==> !IsDirectiveGap(kv.0[k])
  {
    var idx := FindFirst(line, IsDirectiveGap);
    if idx == |line| then
      var key := GoTrimSpace(line);
      TrimIsSlice(line, IsGoSpace);
      (key, "")
    else
      var key := GoTrimSpace(line[..idx]);
      TrimIsSlice(line[..idx], IsGoSpace);
      (key, GoTrimSpace(Suffix(line, idx)))
  }

  /** The split is at the first space or tab: the keyword is the trimmed text
      before it and the value the trimmed text from it on; without a gap the
      whole line is the keyword. */
  lemma SplitDirectiveFirstGap(line: string)
    ensures exists i :: && 0 <= i <= |line|
                        && (forall k :: 0 <= k < i ==> !IsDirectiveGap(line[k]))
                        && (i < |line| ==> IsDirectiveGap(line[i]))
                        && SplitDirective(line) == (GoTrimSpace(line[..i]), GoTrimSpace(line[i..]))
  {
    var i := FindFirst(line, IsDirectiveGap);
    if i == |line| {
      assert line[..i] == line && line[i..] == "";
      assert GoTrimSpace("") == "";
    }
    SuffixIsSlice(line, i);
    assert SplitDirective(line) == (GoTrimSpace(line[..i]), GoTrimSpace(line[i..]));
  }

  /** A line without a space or tab is all keyword. */
  lemma SplitDirectiveNoGap(line: string)
    requires forall k :: 0 <= k < |line| ==> !IsDirectiveGap(line[k])
    ensures SplitDirective(line) == (GoTrimSpace(line), "")
  {
    assert FindFirst(line, IsDirectiveGap) == |line|;
  }

  /** A keyword, a space and a trimmed value split back into the two. */
  lemma SplitDirectiveJoin(key: string, value: string)
    requires |key| > 0 && forall k :: 0 <= k < |key| ==> !IsGoSpace(key[k])
    requires GoTrimSpace(value) == value
    ensures SplitDirective(key + " " + value) == (key, value)
  {
    var line := key + " " + value;
    forall k | 0 <= k < |key|
      ensures !IsDirectiveGap(line[k])
    {
      assert line[k] == key[k];
    }
    assert IsDirectiveGap(line[|key|]);
    assert FindFirst(line, IsDirectiveGap) == |key|;
    assert line[..|key|] == key;
    assert line[|key|..] == " " + value;
    SuffixIsSlice(line, |key|);
    TrimAfterSpace(value);
  }

  /** A `HostName` or `User` value: trimmed, then one leading and one
      trailing double quote removed where present. */
  function TrimValue(value: string): (r: string)
    ensures var t := GoTrimSpace(value);
            |t| - 2 <= |r| <= |t|
    ensures var t := GoTrimSpace(value);
            (|t| == 0 || (t[0] != '"' && t[|t| - 1] != '"')) ==> r == t
    ensures var t := GoTrimSpace(value);
            |t| >= 2 && t[0] == '"' && t[|t| - 1] == '"' ==> r == t[1..|t| - 1]
    ensures var t := GoTrimSpace(value);
            |t| > 0 && t[0] == '"' && (|t| == 1 || t[|t| - 1] != '"') ==> r == t[1..]
    ensures var t := GoTrimSpace(value);
            |t| > 0 && t[0] != '"' && t[|t| - 1] == '"' ==> r == t[..|t| - 1]
  {
    var t := GoTrimSpace(value);
    var u := if |t| > 0 && t[0] == '"' then t[1..] else t;
    if |u| > 0 && u[|u| - 1] == '"' then u[..|u| - 1] else u
  }

  /** Quoting a value protects it: the quotes come off and nothing else
      does, even spaces or quotes inside. */
  lemma TrimValueUnquotes(x: string)
    ensures TrimValue("\"" + x + "\"") == x
  {
    var s := "\"" + x + "\"";
    assert s[0] == '"' && s[|s| - 1] == '"';
    assert GoTrimSpace(s) == s;
    assert s[1..|s| - 1] == x;
  }

  /** The keywords the parser acts on; `Include` is recognised and then not
      followed in this model. */
  datatype Keyword = Include | Host | HostName | User | Port | OtherKeyword

  /** Go `unicode.ToLower` as far as comparison with an ASCII keyword can
      tell: ASCII capitals, and the two non-ASCII letters whose lower case is
      an ASCII letter (U+0130 to `i`, the Kelvin sign U+212A to `k`). Every
      other character's lower case is outside ASCII exactly when the
      character is. */
  function LowerRune(c: char): char
  {
    if 'A' <= c <= 'Z' then (c as int + 32) as char
    else if c == '\U{0130}' then 'i'
    else if c == '\U{212A}' then 'k'
    else c
  }

  /** Go `strings.ToLower`, rune by rune. */
  function GoLower(s: string): (r: string)
    ensures |r| == |s| && forall k :: 0 <= k < |s| ==> r[k] == LowerRune(s[k])
  {
    seq(|s|, k requires 0 <= k < |s| => LowerRune(s[k]))
  }

  function KeywordOf(key: string): (kw: Keyword)
  {
    var l := GoLower(key);
    if l == "include" then Include
    else if l == "host" then Host
    else if l == "hostname" then HostName
    else if l == "user" then User
    else if l == "port" then Port
    else OtherKeyword
  }

  function AsciiUpper(c: char): char
  {
    if 'a' <= c <= 'z' then (c as int - 32) as char else c
  }

  /** Keywords are matched without regard to ASCII letter case. */
  lemma KeywordIgnoresCase(key: string, shouted: string)
    requires |shouted| == |key|
    requires forall k :: 0 <= k < |key| ==> shouted[k] == key[k] || shouted[k] == AsciiUpper(key[k])
    ensures KeywordOf(shouted) == KeywordOf(key)
  {
    assert GoLower(shouted) == GoLower(key);
  }

  /** The keyword text of each recognised directive. */
  lemma KeywordSpellings()
    ensures KeywordOf("Host") == Host && KeywordOf("HostName") == HostName
    ensures KeywordOf("User") == User && KeywordOf("Port") == Port
    ensures KeywordOf("Include") == Include
  {
    assert GoLower("Host") == "host";
    assert GoLower("HostName") == "hostname";
    assert GoLower("User") == "user";
    assert GoLower("Port") == "port";
    assert GoLower("Include") == "include";
  }

  // ---------------------------------------------------------------------
  // Host blocks

  /** The settings gathered under one `Host` line. */
  datatype HostBlock = HostBlock(patterns: seq<string>, hostName: string, user: string, port: int)

  /** One discovered connection. The source also tags each with the constant
      source `"ssh_config"`, which is not repeated here. */
  datatype Conn = Conn(name: string, target: string, port: int)

  /** A directive line, once its comment and surrounding blanks are gone. */
  datatype Directive = Directive(keyword: Keyword, value: string)

  /** The directive a line holds, or `None` for a line the parser skips: one
      that is blank once its comment is stripped, or has no keyword. */
  function LineDirective(line: string): (d: Option<Directive>)
  {
    var l := GoTrimSpace(StripComments(line));
    if l == "" then None
    else
      var kv := SplitDirective(l);
      if kv.0 == "" then None else Some(Directive(KeywordOf(kv.0), kv.1))
  }

  /** A blank line holds no directive. */
  lemma BlankLineHoldsNothing(line: string)
    requires forall k :: 0 <= k < |line| ==> IsGoSpace(line[k])
    ensures LineDirective(line) == None
  {
    var r := StripComments(line);
    assert forall k :: 0 <= k < |r| ==> r[k] == line[k];
  }

  /** A keyword, a space and a value form a line holding that directive. */
  lemma LineDirectiveOf(key: string, value: string)
    requires |key| > 0 && forall k :: 0 <= k < |key| ==> !IsGoSpace(key[k])
    requires |value| > 0 && GoTrimSpace(value) == value
    requires '#' !in key && '#' !in value
    ensures LineDirective(key + " " + value) == Some(Directive(KeywordOf(key), value))
  {
    var line := key + " " + value;
    assert '#' !in line by {
      forall k | 0 <= k < |line| ensures line[k] != '#' {
        if k < |key| { assert line[k] == key[k]; }
        else if k > |key| { assert line[k] == value[k - |key| - 1]; }
      }
    }
    assert line[0] == key[0] && line[|line| - 1] == value[|value| - 1];
    assert GoTrimSpace(line) == line;
    SplitDirectiveJoin(key, value);
  }

  /** A `HostName`, `User` or `Port` directive applied to the open block.
      `HostName` and `User` values are unquoted; a port that `strconv.Atoi`
      rejects leaves the block as it was. */
  function Apply(b: HostBlock, d: Directive): (r: HostBlock)
    ensures r.patterns == b.patterns
    ensures r.hostName == (if d.keyword == HostName then TrimValue(d.value) else b.hostName)
    ensures r.user == (if d.keyword == User then TrimValue(d.value) else b.user)
    ensures d.keyword == Port && Atoi(GoTrimSpace(d.value)).Some? ==> r.port == Atoi(GoTrimSpace(d.value)).value
    ensures d.keyword != Port || Atoi(GoTrimSpace(d.value)).None? ==> r.port == b.port
  {
    if d.keyword == HostName then b.(hostName := TrimValue(d.value))
    else if d.keyword == User then b.(user := TrimValue(d.value))
    else if d.keyword == Port then
      match Atoi(GoTrimSpace(d.value))
      case Some(p) => b.(port := p)
      case None => b
    else b
  }

  /** A pattern names a concrete host: not empty, not a negation, no
      wildcard. */
  predicate Eligible(pattern: string)
  {
    !(pattern == "" || pattern == "*" || (|pattern| > 0 && pattern[0] == '!'))
    && !('*' in pattern || '?' in pattern)
  }

  /** Where a pattern of the block connects to: `HostName` when set, else the
      pattern itself, prefixed by `User@` when a user is set. */
  function Target(b: HostBlock, pattern: string): (t: string)
    ensures b.user == "" ==> t == (if b.hostName != "" then b.hostName else pattern)
    ensures b.user != "" ==> t == b.user + "@" + (if b.hostName != "" then b.hostName else pattern)
  {
    var host := if b.hostName != "" then b.hostName else pattern;
    if b.user != "" then b.user + "@" + host else host
  }

  function EntryFor(b: HostBlock, pattern: string): Conn
  {
    Conn(pattern, Target(b, pattern), b.port)
  }

  /** The parser's state between lines: the open block, the keys already
      emitted, and the connections emitted so far. */
  datatype Scan<K> = Scan(block: Option<HostBlock>, seen: set<K>, out: seq<Conn>)

  /** The loop of the flush closure over the given patterns of `b`. */
  function FlushPatterns<K(==)>(b: HostBlock, patterns: seq<string>, seen: set<K>, out: seq<Conn>, key: Conn -> K): (set<K>, seq<Conn>)
    decreases |patterns|
  {
    if |patterns| == 0 then (seen, out)
    else
      var p := patterns[0];
      if !Eligible(p) then FlushPatterns(b, patterns[1..], seen, out, key)
      else
        var c := EntryFor(b, p);
        if key(c) in seen then FlushPatterns(b, patterns[1..], seen, out, key)
        else FlushPatterns(b, patterns[1..], seen + {key(c)}, out + [c], key)
  }

  /** The flush closure: emit the open block's connections and close it. */
  function Flush<K(==)>(st: Scan<K>, key: Conn -> K): (r: Scan<K>)
    ensures r.block == None
  {
    match st.block
    case None => st
    case Some(b) =>
      var e := FlushPatterns(b, b.patterns, st.seen, st.out, key);
      Scan(None, e.0, e.1)
  }

  /** Each line's directive. */
  function Lex(lines: seq<string>): (ds: seq<Option<Directive>>)
    ensures |ds| == |lines|
    decreases |lines|
  {
    if |lines| == 0 then [] else [LineDirective(lines[0])] + Lex(lines[1..])
  }

  /** One line of the file, once lexed. Each line is lexed on its own, so
      lexing the whole file first changes nothing. */
  function Step<K(==)>(st: Scan<K>, line: Option<Directive>, key: Conn -> K): Scan<K>
  {
    match line
    case None => st
    case Some(d) =>
      if d.keyword == Host then Flush(st, key).(block := Some(HostBlock(Fields(d.value), "", "", 0)))
      else if d.keyword == Include || d.keyword == OtherKeyword then st
      else
        match st.block
        case None => st
        case Some(b) => st.(block := Some(Apply(b, d)))
  }

  function Run<K(==)>(ds: seq<Option<Directive>>, st: Scan<K>, key: Conn -> K): Scan<K>
    decreases |ds|
  {
    if |ds| == 0 then st else Run(ds[1..], Step(st, ds[0], key), key)
  }

  /** The connections of one file, de-duplicated on `key`, in the order they
      are emitted; the last block is flushed at the end of the file. */
  function ParseWith<K(==)>(lines: seq<string>, key: Conn -> K): seq<Conn>
  {
    Flush(Run(Lex(lines), Scan(None, {}, []), key), key).out
  }

  // ---------------------------------------------------------------------
  // The same fold, stated blockwise

  /** The connections the given patterns of a block offer, before
      de-duplication. */
  function OffersOf(b: HostBlock, patterns: seq<string>): (r: seq<Conn>)
    ensures forall c :: c in r ==> Eligible(c.name) && c.name in patterns && c == EntryFor(b, c.name)
    ensures forall p :: p in patterns && Eligible(p) ==> EntryFor(b, p) in r
    decreases |patterns|
  {
    if |patterns| == 0 then []
    else
      var rest := OffersOf(b, patterns[1..]);
      assert forall p :: p in patterns ==> p == patterns[0] || p in patterns[1..];
      if Eligible(patterns[0]) then [EntryFor(b, patterns[0])] + rest else rest
  }

  function Offers(b: HostBlock): seq<Conn>
  {
    OffersOf(b, b.patterns)
  }

  function AllOffers(bs: seq<HostBlock>): seq<Conn>
    decreases |bs|
  {
    if |bs| == 0 then [] else Offers(bs[0]) + AllOffers(bs[1..])
  }

  function OpenBlocks(cur: Option<HostBlock>): seq<HostBlock>
  {
    if cur.Some? then [cur.value] else []
  }

  /** The blocks a run of directives defines, in order, given the block open
      before them: every `Host` closes the open block and opens another, the
      other directives change the open block, and directives before the
      first `Host` belong to no block. */
  function BlocksFrom(ds: seq<Option<Directive>>, cur: Option<HostBlock>): seq<HostBlock>
    decreases |ds|
  {
    if |ds| == 0 then OpenBlocks(cur)
    else
      match ds[0]
      case None => BlocksFrom(ds[1..], cur)
      case Some(d) =>
        if d.keyword == Host then OpenBlocks(cur) + BlocksFrom(ds[1..], Some(HostBlock(Fields(d.value), "", "", 0)))
        else BlocksFrom(ds[1..], if cur.Some? then Some(Apply(cur.value, d)) else None)
  }

  function Blocks(lines: seq<string>): seq<HostBlock>
  {
    BlocksFrom(Lex(lines), None)
  }

  /** Keep-first de-duplication on `key`, onto `seen` and `out`. */
  function Emit<K(==)>(cands: seq<Conn>, seen: set<K>, out: seq<Conn>, key: Conn -> K): (set<K>, seq<Conn>)
    decreases |cands|
  {
    if |cands| == 0 then (seen, out)
    else if key(cands[0]) in seen then Emit(cands[1..], seen, out, key)
    else Emit(cands[1..], seen + {key(cands[0])}, out + [cands[0]], key)
  }

  /** The flush closure is keep-first de-duplication of what the block
      offers. */
  lemma {:induction false} FlushPatternsIsEmit<K>(b: HostBlock, patterns: seq<string>, seen: set<K>, out: seq<Conn>, key: Conn -> K)
    ensures FlushPatterns(b, patterns, seen, out, key) == Emit(OffersOf(b, patterns), seen, out, key)
    decreases |patterns|
  {
    if |patterns| > 0 {
      var p := patterns[0];
      if Eligible(p) {
        var c := EntryFor(b, p);
        var cands := OffersOf(b, patterns);
        assert cands[0] == c && cands[1..] == OffersOf(b, patterns[1..]);
        if key(c) in seen {
          FlushPatternsIsEmit(b, patterns[1..], seen, out, key);
        } else {
          FlushPatternsIsEmit(b, patterns[1..], seen + {key(c)}, out + [c], key);
        }
      } else {
        FlushPatternsIsEmit(b, patterns[1..], seen, out, key);
      }
    }
  }

  /** De-duplicating two runs of candidates is de-duplicating the first and
      then the second onto its result. */
  lemma {:induction false} EmitAppend<K>(a: seq<Conn>, c: seq<Conn>, seen: set<K>, out: seq<Conn>, key: Conn -> K)
    ensures var e := Emit(a, seen, out, key);
            Emit(a + c, seen, out, key) == Emit(c, e.0, e.1, key)
    decreases |a|
  {
    if |a| == 0 {
      assert a + c == c;
    } else {
      assert (a + c)[0] == a[0] && (a + c)[1..] == a[1..] + c;
      if key(a[0]) in seen {
        EmitAppend(a[1..], c, seen, out, key);
      } else {
        EmitAppend(a[1..], c, seen + {key(a[0])}, out + [a[0]], key);
      }
    }
  }

  lemma AllOffersCons(b: HostBlock, bs: seq<HostBlock>)
    ensures AllOffers([b] + bs) == Offers(b) + AllOffers(bs)
  {
    assert ([b] + bs)[1..] == bs;
  }

  /** Flushing the open block emits what `OpenBlocks` offers. */
  lemma FlushIsEmit<K>(st: Scan<K>, key: Conn -> K)
    ensures var e := Emit(AllOffers(OpenBlocks(st.block)), st.seen, st.out, key);
            Flush(st, key) == Scan(None, e.0, e.1)
  {
    match st.block
    case None =>
    case Some(b) =>
      AllOffersCons(b, []);
      assert Offers(b) + [] == Offers(b);
      FlushPatternsIsEmit(b, b.patterns, st.seen, st.out, key);
  }

  /** The line-by-line parser, finished by the last flush, emits exactly the
      keep-first de-duplication of what the file's blocks offer, in block
      order. */
  lemma {:induction false} RunIsEmit<K>(ds: seq<Option<Directive>>, st: Scan<K>, key: Conn -> K)
    ensures var e := Emit(AllOffers(BlocksFrom(ds, st.block)), st.seen, st.out, key);
            Flush(Run(ds, st, key), key) == Scan(None, e.0, e.1)
    decreases |ds|
  {
    if |ds| == 0 {
      FlushIsEmit(st, key);
    } else {
      var next := Step(st, ds[0], key);
      RunIsEmit(ds[1..], next, key);
      match ds[0]
      case None =>
      case Some(d) =>
        if d.keyword == Host {
          HostStepIsEmit(st, next, d, ds[1..], key);
        }
    }
  }

  /** A `Host` line flushes the open block before opening its own. */
  lemma HostStepIsEmit<K>(st: Scan<K>, next: Scan<K>, d: Directive, rest: seq<Option<Directive>>, key: Conn -> K)
    requires d.keyword == Host
    requires next == Flush(st, key).(block := Some(HostBlock(Fields(d.value), "", "", 0)))
    ensures var e := Emit(AllOffers(BlocksFrom(rest, next.block)), next.seen, next.out, key);
            var e' := Emit(AllOffers(OpenBlocks(st.block) + BlocksFrom(rest, next.block)), st.seen, st.out, key);
            e == e'
  {
    FlushIsEmit(st, key);
    var later := BlocksFrom(rest, next.block);
    AllOffersAppend(OpenBlocks(st.block), later);
    EmitAppend(AllOffers(OpenBlocks(st.block)), AllOffers(later), st.seen, st.out, key);
  }

  lemma {:induction false} AllOffersAppend(a: seq<HostBlock>, c: seq<HostBlock>)
    ensures AllOffers(a + c) == AllOffers(a) + AllOffers(c)
    decreases |a|
  {
    if |a| == 0 {
      assert a + c == c;
    } else {
      assert (a + c)[0] == a[0] && (a + c)[1..] == a[1..] + c;
      AllOffersAppend(a[1..], c);
    }
  }

  /** The parser as a whole, stated blockwise. */
  lemma ParseWithIsEmit<K>(lines: seq<string>, key: Conn -> K)
    ensures ParseWith(lines, key) == Emit(AllOffers(Blocks(lines)), {}, [], key).1
  {
    RunIsEmit(Lex(lines), Scan(None, {}, []), key);
  }

  /** The keys of a list of connections. */
  function KeySet<K>(cs: seq<Conn>, key: Conn -> K): set<K>
  {
    set c | c in cs :: key(c)
  }

  /** No two connections of the list share a key. */
  predicate KeysDistinct<K(==)>(cs: seq<Conn>, key: Conn -> K)
  {
    forall i, j :: 0 <= i < j < |cs| ==> key(cs[i]) != key(cs[j])
  }

  /** De-duplication keeps `seen` the key set of `out` and the keys of `out`
      distinct; it extends `out`; afterwards every candidate's key is taken,
      and every new connection is a candidate. */
  lemma {:induction false} EmitProperties<K>(cands: seq<Conn>, seen: set<K>, out: seq<Conn>, key: Conn -> K)
    requires seen == KeySet(out, key) && KeysDistinct(out, key)
    ensures var e := Emit(cands, seen, out, key);
            && e.0 == KeySet(e.1, key)
            && KeysDistinct(e.1, key)
            && |out| <= |e.1| && e.1[..|out|] == out
            && (forall c :: c in cands ==> key(c) in e.0)
            && (forall k :: |out| <= k < |e.1| ==> e.1[k] in cands)
    decreases |cands|
  {
    if |cands| > 0 {
      var c := cands[0];
      if key(c) in seen {
        EmitProperties(cands[1..], seen, out, key);
      } else {
        var out' := out + [c];
        assert KeySet(out', key) == seen + {key(c)} by {
          assert forall x :: x in out' <==> x in out || x == c;
        }
        assert KeysDistinct(out', key) by {
          forall i, j | 0 <= i < j < |out'| ensures key(out'[i]) != key(out'[j]) {
            if j == |out| { assert out'[i] in out; }
          }
        }
        EmitProperties(cands[1..], seen + {key(c)}, out', key);
        var e := Emit(cands, seen, out, key);
        assert e.1[..|out'|] == out';
        assert e.1[..|out|] == out'[..|out|];
      }
      var e := Emit(cands, seen, out, key);
      forall x | x in cands ensures key(x) in e.0 {
        if x != c { assert x in cands[1..]; }
      }
    }
  }

  lemma {:induction false} AllOffersMember(bs: seq<HostBlock>, c: Conn)
    requires c in AllOffers(bs)
    ensures exists b :: b in bs && c in Offers(b)
    decreases |bs|
  {
    if c !in Offers(bs[0]) {
      AllOffersMember(bs[1..], c);
      var b :| b in bs[1..] && c in Offers(b);
      assert b in bs;
    }
  }

  lemma {:induction false} AllOffersCover(bs: seq<HostBlock>, b: HostBlock, c: Conn)
    requires b in bs && c in Offers(b)
    ensures c in AllOffers(bs)
    decreases |bs|
  {
    if bs[0] != b {
      AllOffersCover(bs[1..], b, c);
    }
  }

  // ---------------------------------------------------------------------
  // De-duplication keys

  /** The key the source de-duplicates on: name, target and port joined with
      `|` into one string. */
  function AsWrittenKey(c: Conn): string
  {
    c.name + "|" + c.target + "|" + IntToString(c.port)
  }

  /** The key the de-duplication evidently means: the connection itself. */
  function ConnKey(c: Conn): Conn
  {
    c
  }

  /** The connections of a file as the source computes them. */
  function ParseAsWritten(lines: seq<string>): seq<Conn>
  {
    ParseWith(lines, AsWrittenKey)
  }

  /** The connections of a file, de-duplicated on the connection itself. */
  function Parse(lines: seq<string>): seq<Conn>
  {
    ParseWith(lines, ConnKey)
  }

  /** With either key, the parser emits only what the blocks offer and never
      two connections with the same key, and every offer's key is emitted. */
  lemma ParseWithProperties<K>(lines: seq<string>, key: Conn -> K)
    ensures var r := ParseWith(lines, key);
            && KeysDistinct(r, key)
            && (forall c :: c in r ==> c in AllOffers(Blocks(lines)))
            && (forall c :: c in AllOffers(Blocks(lines)) ==> key(c) in KeySet(r, key))
  {
    ParseWithIsEmit(lines, key);
    EmitProperties(AllOffers(Blocks(lines)), {}, [], key);
    var r := ParseWith(lines, key);
    forall c | c in r ensures c in AllOffers(Blocks(lines)) {
      var k :| 0 <= k < |r| && r[k] == c;
    }
  }

  /** The connections discovered in a file are exactly those its blocks offer,
      each once. */
  lemma ParseOffersEachOnce(lines: seq<string>)
    ensures var r := Parse(lines);
            && (forall i, j :: 0 <= i < j < |r| ==> r[i] != r[j])
            && (forall c :: c in r <==> c in AllOffers(Blocks(lines)))
  {
    ParseWithProperties(lines, ConnKey);
    var r := Parse(lines);
    assert KeysDistinct(r, ConnKey);
    forall c | c in AllOffers(Blocks(lines)) ensures c in r {
      assert ConnKey(c) in KeySet(r, ConnKey);
    }
  }

  /** Every discovered connection is named after an eligible pattern of some
      block and targets where that block says. */
  lemma ParsedConnection(lines: seq<string>)
    ensures forall c :: c in Parse(lines) ==> Eligible(c.name)
    ensures forall c :: c in Parse(lines) ==>
              exists b :: b in Blocks(lines) && c.name in b.patterns && c == EntryFor(b, c.name)
  {
    ParseOffersEachOnce(lines);
    forall c | c in Parse(lines)
      ensures Eligible(c.name)
      ensures exists b :: b in Blocks(lines) && c.name in b.patterns && c == EntryFor(b, c.name)
    {
      AllOffersMember(Blocks(lines), c);
    }
  }

  /** Every eligible pattern of every block is discovered. */
  lemma PatternDiscovered(lines: seq<string>)
    ensures forall b, p :: b in Blocks(lines) && p in b.patterns && Eligible(p) ==>
              EntryFor(b, p) in Parse(lines)
  {
    ParseOffersEachOnce(lines);
    forall b, p | b in Blocks(lines) && p in b.patterns && Eligible(p)
      ensures EntryFor(b, p) in Parse(lines)
    {
      AllOffersCover(Blocks(lines), b, EntryFor(b, p));
    }
  }

  /** A plain word: non-empty, no whitespace, no comment sign, no quotes. */
  predicate Word(w: string)
  {
    |w| > 0 && forall k :: 0 <= k < |w| ==> !IsGoSpace(w[k]) && w[k] != '#' && w[k] != '"'
  }

  /** `Host` is a one-word keyword. */
  lemma HostKeyword()
    ensures Word("Host") && KeywordOf("Host") == Host
  {
    KeywordSpellings();
  }

  /** A two-block file: each `Host` names one pattern and sets `HostName`. */
  function TwoHosts(n1: string, h1: string, n2: string, h2: string): seq<string>
  {
    ["Host " + n1, "HostName " + h1, "Host " + n2, "HostName " + h2]
  }

  lemma WordLine(key: string, w: string)
    requires Word(key) && Word(w)
    ensures LineDirective(key + " " + w) == Some(Directive(KeywordOf(key), w))
  {
    assert !IsGoSpace(w[0]) && !IsGoSpace(w[|w| - 1]);
    assert GoTrimSpace(w) == w;
    LineDirectiveOf(key, w);
  }

  lemma HostLine(n: string)
    requires Word(n)
    ensures LineDirective("Host " + n) == Some(Directive(Host, n))
    ensures Fields(n) == [n]
  {
    HostKeyword();
    assert "Host " == "Host" + " ";
    WordLine("Host", n);
    FieldsOfWord(n);
  }

  lemma HostNameLine(h: string)
    requires Word(h)
    ensures LineDirective("HostName " + h) == Some(Directive(HostName, h))
    ensures TrimValue(h) == h
  {
    KeywordSpellings();
    assert Word("HostName");
    assert "HostName " + h == "HostName" + " " + h;
    WordLine("HostName", h);
    WordIsValue(h);
  }

  /** A word is its own value: nothing to trim, no quotes to remove. */
  lemma WordIsValue(h: string)
    requires Word(h)
    ensures TrimValue(h) == h
  {
    assert !IsGoSpace(h[0]) && !IsGoSpace(h[|h| - 1]) && GoTrimSpace(h) == h;
  }

  lemma {:induction false} LexAppend(a: seq<string>, b: seq<string>)
    ensures Lex(a + b) == Lex(a) + Lex(b)
    decreases |a|
  {
    if |a| == 0 {
      assert a + b == b;
    } else {
      assert (a + b)[0] == a[0] && (a + b)[1..] == a[1..] + b;
      LexAppend(a[1..], b);
    }
  }

  lemma LexTwo(a: string, b: string)
    ensures Lex([a, b]) == [LineDirective(a), LineDirective(b)]
  {
    assert [a, b][1..] == [b];
    assert [b][1..] == [];
  }

  lemma LexFour(l1: string, l2: string, l3: string, l4: string)
    ensures Lex([l1, l2, l3, l4]) == [LineDirective(l1), LineDirective(l2), LineDirective(l3), LineDirective(l4)]
  {
    LexTwo(l1, l2);
    LexTwo(l3, l4);
    LexAppend([l1, l2], [l3, l4]);
    assert [l1, l2] + [l3, l4] == [l1, l2, l3, l4];
  }

  lemma TwoHostsLex(n1: string, h1: string, n2: string, h2: string)
    requires Word(n1) && Word(h1) && Word(n2) && Word(h2)
    ensures Lex(TwoHosts(n1, h1, n2, h2)) == [Some(Directive(Host, n1)), Some(Directive(HostName, h1)), Some(Directive(Host, n2)), Some(Directive(HostName, h2))]
  {
    HostLine(n1);
    HostLine(n2);
    HostNameLine(h1);
    HostNameLine(h2);
    LexFour("Host " + n1, "HostName " + h1, "Host " + n2, "HostName " + h2);
  }

  lemma TwoHostsFold(n1: string, h1: string, n2: string, h2: string, ds: seq<Option<Directive>>)
    requires ds == [Some(Directive(Host, n1)), Some(Directive(HostName, h1)), Some(Directive(Host, n2)), Some(Directive(HostName, h2))]
    requires Word(n1) && Word(h1) && Word(n2) && Word(h2)
    ensures BlocksFrom(ds, None) == [HostBlock([n1], h1, "", 0), HostBlock([n2], h2, "", 0)]
  {
    var c1 := HostBlock([n1], h1, "", 0);
    var rest := [Some(Directive(Host, n2)), Some(Directive(HostName, h2))];
    assert ds == [ds[0]] + ([ds[1]] + rest);
    HostFold(n1, [ds[1]] + rest, None);
    HostNameFold(h1, rest, HostBlock([n1], "", "", 0));
    HostPairFold(n2, h2, Some(c1));
  }

  /** A closing `Host` and `HostName` pair closes the open block and yields
      one for that pattern at that address. */
  lemma HostPairFold(n: string, h: string, cur: Option<HostBlock>)
    requires Word(n) && Word(h)
    ensures BlocksFrom([Some(Directive(Host, n)), Some(Directive(HostName, h))], cur)
            == OpenBlocks(cur) + [HostBlock([n], h, "", 0)]
  {
    var ds := [Some(Directive(Host, n)), Some(Directive(HostName, h))];
    assert ds == [ds[0]] + [ds[1]] && [ds[1]] == [ds[1]] + [];
    HostFold(n, [ds[1]], cur);
    HostNameFold(h, [], HostBlock([n], "", "", 0));
  }

  /** A one-word `Host` line closes the open block and opens one for that
      pattern. */
  lemma HostFold(n: string, rest: seq<Option<Directive>>, cur: Option<HostBlock>)
    requires Word(n)
    ensures BlocksFrom([Some(Directive(Host, n))] + rest, cur)
            == OpenBlocks(cur) + BlocksFrom(rest, Some(HostBlock([n], "", "", 0)))
  {
    FieldsOfWord(n);
    assert ([Some(Directive(Host, n))] + rest)[1..] == rest;
  }

  /** A one-word `HostName` line sets the open block's address. */
  lemma HostNameFold(h: string, rest: seq<Option<Directive>>, b: HostBlock)
    requires Word(h)
    ensures BlocksFrom([Some(Directive(HostName, h))] + rest, Some(b))
            == BlocksFrom(rest, Some(b.(hostName := h)))
  {
    WordIsValue(h);
    assert Apply(b, Directive(HostName, h)) == b.(hostName := h);
    assert ([Some(Directive(HostName, h))] + rest)[1..] == rest;
  }

  lemma TwoHostsBlocks(n1: string, h1: string, n2: string, h2: string)
    requires Word(n1) && Word(h1) && Word(n2) && Word(h2)
    ensures Blocks(TwoHosts(n1, h1, n2, h2)) == [HostBlock([n1], h1, "", 0), HostBlock([n2], h2, "", 0)]
  {
    HostLine(n1);
    HostLine(n2);
    HostNameLine(h1);
    HostNameLine(h2);
    TwoHostsLex(n1, h1, n2, h2);
    TwoHostsFold(n1, h1, n2, h2, Lex(TwoHosts(n1, h1, n2, h2)));
  }

  /** Two single-pattern blocks offer their two connections, in order. */
  lemma TwoBlockOffers(n1: string, h1: string, n2: string, h2: string)
    requires Eligible(n1) && Eligible(n2) && h1 != "" && h2 != ""
    ensures AllOffers([HostBlock([n1], h1, "", 0), HostBlock([n2], h2, "", 0)]) == [Conn(n1, h1, 0), Conn(n2, h2, 0)]
  {
    var b1, b2 := HostBlock([n1], h1, "", 0), HostBlock([n2], h2, "", 0);
    assert [n1][1..] == [] && [n2][1..] == [];
    assert Target(b1, n1) == h1 && Target(b2, n2) == h2;
    assert OffersOf(b1, []) == [] && OffersOf(b2, []) == [];
    assert Offers(b1) == [Conn(n1, h1, 0)];
    assert Offers(b2) == [Conn(n2, h2, 0)];
    AllOffersCons(b1, [b2]);
    AllOffersCons(b2, []);
    assert [b2] == [b2] + [];
    assert [b1, b2] == [b1] + [b2];
  }

  lemma EmitTwo<K>(c1: Conn, c2: Conn, key: Conn -> K)
    ensures Emit([c1, c2], {}, [], key).1 == if key(c1) == key(c2) then [c1] else [c1, c2]
  {
    var cs := [c1, c2];
    assert cs[1..] == [c2] && [c2][1..] == [];
    var none: set<K> := {};
    assert none + {key(c1)} == {key(c1)} && [] + [c1] == [c1];
    assert Emit(cs, {}, [], key) == Emit([c2], {key(c1)}, [c1], key);
    if key(c1) != key(c2) {
      assert {key(c1)} + {key(c2)} == {key(c1), key(c2)} && [c1] + [c2] == [c1, c2];
      assert Emit([c2], {key(c1)}, [c1], key) == Emit([], {key(c1), key(c2)}, [c1, c2], key);
    } else {
      assert key(c2) in {key(c1)};
      assert Emit([c2], {key(c1)}, [c1], key) == Emit([], {key(c1)}, [c1], key);
    }
  }

  lemma TwoOffersParse<K>(lines: seq<string>, c1: Conn, c2: Conn, key: Conn -> K)
    requires AllOffers(Blocks(lines)) == [c1, c2]
    ensures ParseWith(lines, key) == if key(c1) == key(c2) then [c1] else [c1, c2]
  {
    ParseWithIsEmit(lines, key);
    EmitTwo(c1, c2, key);
  }

  /** Parsing a two-block file keeps the second connection exactly when its
      key differs from the first one's. */
  lemma TwoHostsParse<K>(n1: string, h1: string, n2: string, h2: string, key: Conn -> K)
    requires Word(n1) && Word(h1) && Word(n2) && Word(h2) && Eligible(n1) && Eligible(n2)
    ensures var c1, c2 := Conn(n1, h1, 0), Conn(n2, h2, 0);
            ParseWith(TwoHosts(n1, h1, n2, h2), key) == if key(c1) == key(c2) then [c1] else [c1, c2]
  {
    TwoHostsBlocks(n1, h1, n2, h2);
    TwoBlockOffers(n1, h1, n2, h2);
    TwoOffersParse(TwoHosts(n1, h1, n2, h2), Conn(n1, h1, 0), Conn(n2, h2, 0), key);
  }

  /** Two blocks whose connections differ but whose joined keys coincide:
      `a|b` reached at `c`, and `a` reached at `b|c`, both on port 0. The
      source drops the second; de-duplicating on the connection keeps it. */
  lemma KeyCollisionDropsConnection()
    ensures AsWrittenKey(Conn("a|b", "c", 0)) == AsWrittenKey(Conn("a", "b|c", 0))
    ensures ParseAsWritten(TwoHosts("a|b", "c", "a", "b|c")) == [Conn("a|b", "c", 0)]
    ensures Parse(TwoHosts("a|b", "c", "a", "b|c")) == [Conn("a|b", "c", 0), Conn("a", "b|c", 0)]
  {
    assert IntToString(0) == "0";
    assert AsWrittenKey(Conn("a|b", "c", 0)) == "a|b|c|0";
    assert AsWrittenKey(Conn("a", "b|c", 0)) == "a|b|c|0";
    assert Word("a|b") && Word("c") && Word("a") && Word("b|c");
    TwoHostsParse("a|b", "c", "a", "b|c", AsWrittenKey);
    TwoHostsParse("a|b", "c", "a", "b|c", ConnKey);
  }

  // ---------------------------------------------------------------------
  // Blocks

  predicate IsHost(d: Option<Directive>)
  {
    d.Some? && d.value.keyword == Host
  }

  function CountHosts(ds: seq<Option<Directive>>): nat
    decreases |ds|
  {
    if |ds| == 0 then 0 else (if IsHost(ds[0]) then 1 else 0) + CountHosts(ds[1..])
  }

  /** Every `Host` closes one block, and the block open at the end is
      flushed too. */
  lemma {:induction false} BlocksFromCount(ds: seq<Option<Directive>>, cur: Option<HostBlock>)
    ensures |BlocksFrom(ds, cur)| == |OpenBlocks(cur)| + CountHosts(ds)
    ensures cur.Some? ==> BlocksFrom(ds, cur)[0].patterns == cur.value.patterns
    decreases |ds|
  {
    if |ds| > 0 {
      match ds[0]
      case None =>
        BlocksFromCount(ds[1..], cur);
      case Some(d) =>
        if d.keyword == Host {
          BlocksFromCount(ds[1..], Some(HostBlock(Fields(d.value), "", "", 0)));
        } else {
          BlocksFromCount(ds[1..], if cur.Some? then Some(Apply(cur.value, d)) else None);
        }
    }
  }

  /** A file has one block per `Host` line. */
  lemma BlocksOfFile(lines: seq<string>)
    ensures |Blocks(lines)| == CountHosts(Lex(lines))
  {
    BlocksFromCount(Lex(lines), None);
  }

  lemma {:induction false} BlocksFromUnowned(pre: seq<Option<Directive>>, rest: seq<Option<Directive>>)
    requires forall i :: 0 <= i < |pre| ==> !IsHost(pre[i])
    ensures BlocksFrom(pre + rest, None) == BlocksFrom(rest, None)
    decreases |pre|
  {
    if |pre| == 0 {
      assert pre + rest == rest;
    } else {
      assert (pre + rest)[0] == pre[0] && (pre + rest)[1..] == pre[1..] + rest;
      assert !IsHost(pre[0]);
      BlocksFromUnowned(pre[1..], rest);
    }
  }

  /** `HostName`, `User` and `Port` lines before the first `Host` belong to
      no block and change nothing. */
  lemma SettingsBeforeHostIgnored(pre: seq<string>, rest: seq<string>)
    requires forall i :: 0 <= i < |pre| ==> !IsHost(LineDirective(pre[i]))
    ensures Blocks(pre + rest) == Blocks(rest)
  {
    LexAppend(pre, rest);
    LexIndex(pre);
    BlocksFromUnowned(Lex(pre), Lex(rest));
  }

  lemma {:induction false} LexIndex(lines: seq<string>)
    ensures forall i :: 0 <= i < |lines| ==> Lex(lines)[i] == LineDirective(lines[i])
    decreases |lines|
  {
    if |lines| > 0 {
      LexIndex(lines[1..]);
      assert forall i :: 1 <= i < |lines| ==> lines[1..][i - 1] == lines[i];
    }
  }

  // ---------------------------------------------------------------------
  // Order

  /** The comparator the list is sorted with: by name, then target, then
      port, names and targets in Go's string order. */
  predicate ConnLess(a: Conn, b: Conn)
  {
    if a.name != b.name then StrLess(a.name, b.name)
    else if a.target != b.target then StrLess(a.target, b.target)
    else a.port < b.port
  }

  lemma ConnLessIrreflexive(a: Conn)
    ensures !ConnLess(a, a)
  {
  }

  lemma ConnLessTransitive(a: Conn, b: Conn, c: Conn)
    requires ConnLess(a, b) && ConnLess(b, c)
    ensures ConnLess(a, c)
  {
    if a.name != b.name && b.name != c.name {
      StrLessTransitive(a.name, b.name, c.name);
      if a.name == c.name { StrLessIrreflexive(a.name); }
    } else if a.name == b.name && b.name == c.name {
      if a.target != b.target && b.target != c.target {
        StrLessTransitive(a.target, b.target, c.target);
        if a.target == c.target { StrLessIrreflexive(a.target); }
      }
    }
  }

  /** Two different connections are always ordered one way. */
  lemma ConnLessTotal(a: Conn, b: Conn)
    requires a != b
    ensures ConnLess(a, b) || ConnLess(b, a)
  {
    if a.name != b.name {
      StrLessTotal(a.name, b.name);
    } else if a.target != b.target {
      StrLessTotal(a.target, b.target);
    }
  }

  lemma ConnLessAsymmetric(a: Conn, b: Conn)
    requires ConnLess(a, b)
    ensures !ConnLess(b, a)
  {
    if ConnLess(b, a) {
      ConnLessTransitive(a, b, a);
      ConnLessIrreflexive(a);
    }
  }

  /** No connection is followed by one that sorts before it. */
  predicate Sorted(s: seq<Conn>)
  {
    forall i, j :: 0 <= i < j < |s| ==> !ConnLess(s[j], s[i])
  }

  predicate StrictlySorted(s: seq<Conn>)
  {
    forall i, j :: 0 <= i < j < |s| ==> ConnLess(s[i], s[j])
  }

  /** `x` placed into a sorted list before the first element it does not
      follow. */
  function Insert(x: Conn, s: seq<Conn>): (r: seq<Conn>)
    requires Sorted(s)
    ensures Sorted(r) && multiset(r) == multiset(s) + multiset{x}
    decreases |s|
  {
    if |s| == 0 then [x]
    else if ConnLess(s[0], x) then
      var rest := Insert(x, s[1..]);
      assert s == [s[0]] + s[1..];
      InsertAfterHead(x, s, rest);
      [s[0]] + rest
    else
      InsertBeforeHead(x, s);
      [x] + s
  }

  lemma InsertAfterHead(x: Conn, s: seq<Conn>, rest: seq<Conn>)
    requires |s| > 0 && Sorted(s) && ConnLess(s[0], x)
    requires Sorted(rest) && multiset(rest) == multiset(s[1..]) + multiset{x}
    ensures Sorted([s[0]] + rest)
  {
    var r := [s[0]] + rest;
    forall i, j | 0 <= i < j < |r| ensures !ConnLess(r[j], r[i]) {
      if i == 0 {
        var y := r[j];
        assert y == rest[j - 1];
        assert y in multiset(rest);
        if y == x {
          ConnLessAsymmetric(s[0], x);
        } else {
          assert y in multiset(s[1..]);
          var k :| 0 <= k < |s[1..]| && s[1..][k] == y;
          assert s[k + 1] == y;
        }
      } else {
        assert r[i] == rest[i - 1] && r[j] == rest[j - 1];
      }
    }
  }

  lemma InsertBeforeHead(x: Conn, s: seq<Conn>)
    requires |s| > 0 && Sorted(s) && !ConnLess(s[0], x)
    ensures Sorted([x] + s)
  {
    var r := [x] + s;
    forall i, j | 0 <= i < j < |r| ensures !ConnLess(r[j], r[i]) {
      if i == 0 {
        var y := s[j - 1];
        assert r[j] == y;
        if ConnLess(y, x) {
          if y == s[0] {
          } else {
            assert !ConnLess(y, s[0]);
            ConnLessTotal(y, s[0]);
            ConnLessTransitive(s[0], y, x);
          }
        }
      } else {
        assert r[i] == s[i - 1] && r[j] == s[j - 1];
      }
    }
  }

  /** The list sorted by `ConnLess`. */
  function SortConns(s: seq<Conn>): (r: seq<Conn>)
    ensures Sorted(r) && multiset(r) == multiset(s)
    decreases |s|
  {
    if |s| == 0 then []
    else
      assert s == [s[0]] + s[1..];
      Insert(s[0], SortConns(s[1..]))
  }

  /** Sorted without duplicates is strictly sorted. */
  lemma SortedDistinct(s: seq<Conn>)
    requires Sorted(s)
    requires forall i, j :: 0 <= i < j < |s| ==> s[i] != s[j]
    ensures StrictlySorted(s)
  {
    forall i, j | 0 <= i < j < |s| ensures ConnLess(s[i], s[j]) {
      ConnLessTotal(s[i], s[j]);
    }
  }

  /** A strictly sorted list is determined by its elements: any correct sort
      of a duplicate-free list, stable or not, gives the same result. */
  lemma {:induction false} StrictlySortedUnique(a: seq<Conn>, b: seq<Conn>)
    requires StrictlySorted(a) && StrictlySorted(b) && multiset(a) == multiset(b)
    ensures a == b
    decreases |a|
  {
    if |a| > 0 {
      assert |b| == |multiset(b)| == |multiset(a)| == |a|;
      SameLeast(a, b);
      TailsSameElements(a, b);
      StrictlySortedUnique(a[1..], b[1..]);
      assert a == [a[0]] + a[1..] && b == [b[0]] + b[1..];
    }
  }

  /** Two strictly sorted lists of the same elements start alike. */
  lemma SameLeast(a: seq<Conn>, b: seq<Conn>)
    requires |a| > 0 && |b| > 0
    requires StrictlySorted(a) && StrictlySorted(b) && multiset(a) == multiset(b)
    ensures a[0] == b[0]
  {
    assert a[0] in multiset(b) && b[0] in multiset(a);
    var i :| 0 <= i < |b| && b[i] == a[0];
    var j :| 0 <= j < |a| && a[j] == b[0];
    if i > 0 && j > 0 {
      assert ConnLess(a[0], a[j]) && ConnLess(b[0], b[i]);
      ConnLessAsymmetric(a[0], b[0]);
    }
  }

  lemma TailsSameElements(a: seq<Conn>, b: seq<Conn>)
    requires |a| > 0 && |b| > 0 && a[0] == b[0] && multiset(a) == multiset(b)
    ensures multiset(a[1..]) == multiset(b[1..])
  {
    assert a == [a[0]] + a[1..] && b == [b[0]] + b[1..];
    assert multiset(a) == multiset{a[0]} + multiset(a[1..]);
    assert multiset(b) == multiset{b[0]} + multiset(b[1..]);
    assert multiset(a[1..]) == multiset(a) - multiset{a[0]};
    assert multiset(b[1..]) == multiset(b) - multiset{b[0]};
  }

  /** The list `discoverSSHConfigConnections` returns as written: the
      connections kept under the joined-string key, sorted. */
  function DiscoverAsWritten(lines: seq<string>): seq<Conn>
  {
    SortConns(ParseAsWritten(lines))
  }

  /** As written, the returned list is strictly sorted and holds exactly the
      connections the joined-key parse keeps, each once: only offered
      connections, and one for every joined key an offer has. */
  lemma DiscoverAsWrittenSorted(lines: seq<string>)
    ensures var r := DiscoverAsWritten(lines);
            && StrictlySorted(r)
            && (forall c :: c in r <==> c in ParseAsWritten(lines))
            && (forall c :: c in r ==> c in AllOffers(Blocks(lines)))
            && (forall c :: c in AllOffers(Blocks(lines)) ==> AsWrittenKey(c) in KeySet(r, AsWrittenKey))
  {
    var p := ParseAsWritten(lines);
    var r := DiscoverAsWritten(lines);
    ParseWithProperties(lines, AsWrittenKey);
    DistinctKeysDistinct(p, AsWrittenKey);
    SameElements(p, r, AsWrittenKey);
    NoDuplicatesSurviveSort(p, r);
    SortedDistinct(r);
  }

  /** Connections with distinct keys are distinct. */
  lemma DistinctKeysDistinct<K>(p: seq<Conn>, key: Conn -> K)
    requires KeysDistinct(p, key)
    ensures forall i, j :: 0 <= i < j < |p| ==> p[i] != p[j]
  {
  }

  /** A reordering has the same members and the same keys. */
  lemma SameElements<K>(p: seq<Conn>, r: seq<Conn>, key: Conn -> K)
    requires multiset(r) == multiset(p)
    ensures forall c :: c in r <==> c in p
    ensures KeySet(r, key) == KeySet(p, key)
  {
    forall c ensures c in r <==> c in p {
      assert c in r <==> c in multiset(r);
      assert c in p <==> c in multiset(p);
    }
  }

  /** The as-written list for the colliding file of
      `KeyCollisionDropsConnection` lacks `(a, b|c, 0)`; the corrected one
      holds it. */
  lemma DiscoverAsWrittenDrops()
    ensures DiscoverAsWritten(TwoHosts("a|b", "c", "a", "b|c")) == [Conn("a|b", "c", 0)]
    ensures Conn("a", "b|c", 0) in Discover(TwoHosts("a|b", "c", "a", "b|c"))
  {
    KeyCollisionDropsConnection();
    var lines := TwoHosts("a|b", "c", "a", "b|c");
    assert SortConns([Conn("a|b", "c", 0)]) == Insert(Conn("a|b", "c", 0), SortConns([]));
    var p := Parse(lines);
    assert Conn("a", "b|c", 0) in multiset(p);
    assert Conn("a", "b|c", 0) in multiset(Discover(lines));
  }

  /** The connections of the corrected program: the file's connections
      de-duplicated on the connection itself, sorted. */
  function Discover(lines: seq<string>): seq<Conn>
  {
    SortConns(Parse(lines))
  }

  /** The returned list holds each connection the blocks offer exactly once,
      in strictly ascending order. */
  lemma DiscoverSortedAndComplete(lines: seq<string>)
    ensures var r := Discover(lines);
            && StrictlySorted(r)
            && (forall c :: c in r <==> c in AllOffers(Blocks(lines)))
  {
    var p := Parse(lines);
    var r := Discover(lines);
    ParseOffersEachOnce(lines);
    forall c ensures c in r <==> c in p {
      assert c in r <==> c in multiset(r);
      assert c in p <==> c in multiset(p);
    }
    NoDuplicatesSurviveSort(p, r);
    SortedDistinct(r);
  }

  lemma NoDuplicatesSurviveSort(p: seq<Conn>, r: seq<Conn>)
    requires forall i, j :: 0 <= i < j < |p| ==> p[i] != p[j]
    requires multiset(r) == multiset(p)
    ensures forall i, j :: 0 <= i < j < |r| ==> r[i] != r[j]
  {
    forall i, j | 0 <= i < j < |r| ensures r[i] != r[j] {
      AtMostOnce(p, r[i]);
      if r[i] == r[j] {
        CountedTwice(r, i, j);
        assert false;
      }
    }
  }

  lemma CountedTwice(r: seq<Conn>, i: int, j: int)
    requires 0 <= i < j < |r| && r[i] == r[j]
    ensures multiset(r)[r[i]] >= 2
  {
    assert r == r[..i] + [r[i]] + r[i + 1..j] + [r[j]] + r[j + 1..];
  }

  lemma {:induction false} AtMostOnce(p: seq<Conn>, c: Conn)
    requires forall i, j :: 0 <= i < j < |p| ==> p[i] != p[j]
    ensures multiset(p)[c] <= 1
    decreases |p|
  {
    if |p| > 0 {
      assert p == [p[0]] + p[1..];
      AtMostOnce(p[1..], c);
      if p[0] == c {
        assert c !in p[1..];
      }
    }
  }

  /** `sort.Slice` is not stable, but the parsed list has no duplicates, so
      a list is the discovered one exactly when it is a sorted permutation
      of the parsed list. */
  lemma DiscoverIsAnySort(lines: seq<string>, other: seq<Conn>)
    ensures Sorted(other) && multiset(other) == multiset(Parse(lines)) <==> other == Discover(lines)
  {
    DiscoverSortedAndComplete(lines);
    if Sorted(other) && multiset(other) == multiset(Parse(lines)) {
      ParseOffersEachOnce(lines);
      NoDuplicatesSurviveSort(Parse(lines), other);
      SortedDistinct(other);
      StrictlySortedUnique(other, Discover(lines));
    }
  }
}
