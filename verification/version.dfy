/** The update check's version comparison (app.go, `isNewer`): release tags
    such as `v1.4.2` compared component by component as integers. */
module Version {
  import opened Text
  import opened Numbers

  /** The build of a development checkout; it is never offered an update. */
  const DevVersion: string := "dev"

  /** The tag without one leading `v`. */
  function TrimV(v: string): (r: string)
    ensures |v| > 0 && v[0] == 'v' ==> r == v[1..]
    ensures (|v| == 0 || v[0] != 'v') ==> r == v
  {
    if |v| > 0 && v[0] == 'v' then v[1..] else v
  }

  /** The value of each component as `strconv.Atoi` leaves it, the returned
      error being ignored: the nearest 64-bit bound once the leading digits
      overflow, even when other text follows them, and otherwise 0 for text
      that is not a number. */
  function ComponentValues(parts: seq<string>): (r: seq<int>)
    ensures |r| == |parts|
    ensures forall i :: 0 <= i < |parts| ==> r[i] == AtoiValue(parts[i])
  {
    seq(|parts|, i requires 0 <= i < |parts| => AtoiValue(parts[i]))
  }

  /** The numeric components of a tag; there is always at least one. */
  function Components(v: string): (r: seq<int>)
    ensures |r| >= 1
  {
    ComponentValues(Split(TrimV(v), '.'))
  }

  /** Dotted-numeric order: the first differing component decides, and when
      one list is a prefix of the other the longer one is greater. */
  predicate LexGreater(l: seq<int>, c: seq<int>)
    decreases |l|
  {
    if |l| == 0 || |c| == 0 then |l| > |c|
    else if l[0] != c[0] then l[0] > c[0]
    else LexGreater(l[1..], c[1..])
  }

  /** `latest` is a newer release than the running `current` one. */
  predicate Newer(latest: string, current: string)
  {
    current != DevVersion && LexGreater(Components(latest), Components(current))
  }

  /** The source's comparison: `current` is checked against the development
      build before any parsing. */
  method IsNewer(latest: string, current: string) returns (r: bool)
    ensures r == Newer(latest, current)
    ensures current == DevVersion ==> !r
  {
    if current == DevVersion {
      return false;
    }
    r := CompareComponents(Components(latest), Components(current));
  }

  /** The comparison loop as the source writes it: walk the common prefix,
      return at the first difference, otherwise compare the lengths. */
  method CompareComponents(l: seq<int>, c: seq<int>) returns (r: bool)
    ensures r == LexGreater(l, c)
  {
    var i := 0;
    while i < |l| && i < |c|
      invariant 0 <= i <= |l| && 0 <= i <= |c|
      invariant LexGreater(l, c) == LexGreater(l[i..], c[i..])
    {
      if l[i] > c[i] {
        return true;
      }
      if l[i] < c[i] {
        return false;
      }
      assert l[i..][1..] == l[i + 1..] && c[i..][1..] == c[i + 1..];
      i := i + 1;
    }
    return |l| > |c|;
  }

  lemma {:induction false} LexGreaterIrreflexive(l: seq<int>)
    ensures !LexGreater(l, l)
    decreases |l|
  {
    if |l| > 0 {
      LexGreaterIrreflexive(l[1..]);
    }
  }

  lemma {:induction false} LexGreaterAsymmetric(l: seq<int>, c: seq<int>)
    requires LexGreater(l, c)
    ensures !LexGreater(c, l)
    decreases |l|
  {
    if |l| > 0 && |c| > 0 && l[0] == c[0] {
      LexGreaterAsymmetric(l[1..], c[1..]);
    }
  }

  lemma {:induction false} LexGreaterTransitive(a: seq<int>, b: seq<int>, c: seq<int>)
    requires LexGreater(a, b) && LexGreater(b, c)
    ensures LexGreater(a, c)
    decreases |a|
  {
    if |a| > 0 && |b| > 0 && |c| > 0 && a[0] == b[0] && b[0] == c[0] {
      LexGreaterTransitive(a[1..], b[1..], c[1..]);
    }
  }

  /** No release is newer than itself. */
  lemma NewerIrreflexive(v: string)
    ensures !Newer(v, v)
  {
    LexGreaterIrreflexive(Components(v));
  }

  /** Of two releases at most one is newer than the other. */
  lemma NewerAsymmetric(a: string, b: string)
    requires Newer(a, b)
    ensures !Newer(b, a)
  {
    LexGreaterAsymmetric(Components(a), Components(b));
  }

  lemma NewerTransitive(a: string, b: string, c: string)
    requires Newer(a, b) && Newer(b, c)
    ensures Newer(a, c)
  {
    LexGreaterTransitive(Components(a), Components(b), Components(c));
  }

  /** The tag text of a list of version numbers, `1.4.2` for [1, 4, 2]. */
  function Render(ns: seq<nat>): string
  {
    Join(seq(|ns|, i requires 0 <= i < |ns| => NatToString(ns[i])), ".")
  }

  /** Reading a rendered version gives its numbers back, with or without
      the `v` prefix. */
  lemma ComponentsOfRender(ns: seq<nat>)
    requires |ns| >= 1 && forall i :: 0 <= i < |ns| ==> ns[i] <= Int64Max
    ensures Components(Render(ns)) == ns
    ensures Components("v" + Render(ns)) == ns
  {
    var parts := seq(|ns|, i requires 0 <= i < |ns| => NatToString(ns[i]));
    forall i | 0 <= i < |parts| ensures '.' !in parts[i] {
      IntToStringAlphabet(ns[i]);
    }
    SplitJoin(parts, '.');
    var r := Render(ns);
    assert r[0] == parts[0][0] by { JoinEnds(parts, "."); }
    assert r[0] != 'v';
    assert ("v" + r)[1..] == r;
    forall i | 0 <= i < |ns| ensures AtoiValue(parts[i]) == ns[i] {
      AtoiIntToString(ns[i]);
    }
  }

  /** Between two rendered releases, `Newer` is exactly the dotted-numeric
      order of their numbers. */
  lemma NewerOfRendered(l: seq<nat>, c: seq<nat>)
    requires |l| >= 1 && forall i :: 0 <= i < |l| ==> l[i] <= Int64Max
    requires |c| >= 1 && forall i :: 0 <= i < |c| ==> c[i] <= Int64Max
    ensures Newer("v" + Render(l), "v" + Render(c)) <==> LexGreater(l, c)
  {
    ComponentsOfRender(l);
    ComponentsOfRender(c);
    assert ("v" + Render(c))[0] == 'v' != 'd';
  }
}
