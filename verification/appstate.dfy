/** The front end's connection state (frontend/src/App.tsx): saved connection
    profiles, the active one, the latest readings and connection metadata,
    and one pure transition per event handler or effect. The clock, the
    fresh profile id and the result of a connection test are parameters;
    calls into the back end (`SetConnection`) are returned as values. */
module AppState {
  import opened Text
  import opened Numbers
  import opened Telemetry

  datatype ProfileSource = Manual | SshConfigSource

  datatype TestStatus = Success | Failed | Never

  /** A saved connection. The optional error fields are absent (`undefined`)
      until a test or an event sets them. */
  datatype Profile = Profile(
    id: string,
    name: string,
    target: string,
    port: int,
    source: ProfileSource,
    lastUsedAt: Option<int>,
    lastTestStatus: TestStatus,
    lastErrorCode: Option<string>,
    lastErrorMessage: Option<string>)

  /** The back end's view of the connection, as the `gpu:conn_meta` event
      delivers it. */
  datatype Meta = Meta(
    status: ConnStatus,
    lastSuccessTs: int,
    consecutiveFailures: int,
    nextRetryInSec: int,
    errorCode: string,
    errorMessage: string,
    activeTarget: string,
    activePort: int)

  const EmptyMeta: Meta := Meta(Idle, 0, 0, 0, "", "", "", 0)

  datatype State = State(
    profiles: seq<Profile>,
    activeId: Option<string>,
    gpus: seq<Gpu>,
    meta: Meta,
    inlineError: string,
    hostInput: string)

  /** JavaScript truthiness of the active id: `null` and `""` are both
      false. */
  predicate HasActiveId(s: State)
  {
    s.activeId.Some? && s.activeId.value != ""
  }

  /** Index of the first profile with id `id`, or `|ps|`. */
  function FindId(ps: seq<Profile>, id: string): (i: nat)
    ensures i <= |ps|
    ensures forall k :: 0 <= k < i ==> ps[k].id != id
    ensures i < |ps| ==> ps[i].id == id
    decreases |ps|
  {
    if |ps| == 0 || ps[0].id == id then 0 else 1 + FindId(ps[1..], id)
  }

  /** The profile the active id selects: the first with that id, or none
      when no id is set or no profile has it. */
  function ActiveConnection(s: State): (r: Option<Profile>)
    ensures r.Some? ==> s.activeId.Some? && r.value in s.profiles && r.value.id == s.activeId.value
    ensures r.None? <==> s.activeId.None? || forall k :: 0 <= k < |s.profiles| ==> s.profiles[k].id != s.activeId.value
    ensures r.Some? ==> var i := FindId(s.profiles, s.activeId.value); i < |s.profiles| && r.value == s.profiles[i]
  {
    match s.activeId
    case None => None
    case Some(id) => Lookup(s.profiles, id)
  }

  /** The first profile with the given id, if any. */
  function Lookup(ps: seq<Profile>, id: string): (r: Option<Profile>)
    ensures r.Some? <==> FindId(ps, id) < |ps|
    ensures r.Some? ==> r.value == ps[FindId(ps, id)]
    decreases |ps|
  {
    if |ps| == 0 then None
    else if ps[0].id == id then Some(ps[0])
    else Lookup(ps[1..], id)
  }

  /** What the active-connection effect watches: the id, target and port of
      the active profile. */
  function ConnectionKey(p: Option<Profile>): Option<(string, string, int)>
  {
    match p
    case None => None
    case Some(q) => Some((q.id, q.target, q.port))
  }

  // ---------------------------------------------------------------------
  // Back-end events

  /** The profile fields a successful reading sets. */
  function MarkSuccess(p: Profile, now: int): Profile
  {
    p.(lastUsedAt := Some(now), lastTestStatus := Success, lastErrorCode := Some(""), lastErrorMessage := Some(""))
  }

  /** The profile fields a failure sets; an error code already present is
      kept, an absent one becomes empty. */
  function MarkFailure(p: Profile, message: string): Profile
  {
    p.(lastTestStatus := Failed, lastErrorCode := Some(p.lastErrorCode.GetOr("")), lastErrorMessage := Some(message))
  }

  /** `gpu:data`: the readings replace the old ones, the inline error is
      cleared, and every profile with the active id is marked successful. */
  function OnGpuData(s: State, payload: seq<Gpu>, now: int): (r: State)
    ensures r.gpus == payload && r.inlineError == ""
    ensures r.activeId == s.activeId && r.meta == s.meta && r.hostInput == s.hostInput
    ensures |r.profiles| == |s.profiles|
    ensures forall i :: 0 <= i < |s.profiles| ==>
              r.profiles[i] == if HasActiveId(s) && s.profiles[i].id == s.activeId.value then MarkSuccess(s.profiles[i], now) else s.profiles[i]
  {
    var ps := if HasActiveId(s) then
      seq(|s.profiles|, i requires 0 <= i < |s.profiles| =>
        if s.profiles[i].id == s.activeId.value then MarkSuccess(s.profiles[i], now) else s.profiles[i])
    else s.profiles;
    s.(gpus := payload, inlineError := "", profiles := ps)
  }

  /** `gpu:error`: the message becomes the inline error, and every profile
      with the active id is marked failed. */
  function OnGpuError(s: State, message: string): (r: State)
    ensures r.inlineError == message
    ensures r.activeId == s.activeId && r.meta == s.meta && r.gpus == s.gpus && r.hostInput == s.hostInput
    ensures |r.profiles| == |s.profiles|
    ensures forall i :: 0 <= i < |s.profiles| ==>
              r.profiles[i] == if HasActiveId(s) && s.profiles[i].id == s.activeId.value then MarkFailure(s.profiles[i], message) else s.profiles[i]
  {
    var ps := if HasActiveId(s) then
      seq(|s.profiles|, i requires 0 <= i < |s.profiles| =>
        if s.profiles[i].id == s.activeId.value then MarkFailure(s.profiles[i], message) else s.profiles[i])
    else s.profiles;
    s.(inlineError := message, profiles := ps)
  }

  /** `gpu:conn_meta`: the back end's metadata replaces the old, whole. */
  function OnConnMeta(s: State, meta: Meta): (r: State)
    ensures r.meta == meta
    ensures r.profiles == s.profiles && r.activeId == s.activeId && r.gpus == s.gpus
    ensures r.inlineError == s.inlineError && r.hostInput == s.hostInput
  {
    s.(meta := meta)
  }

  /** Readings and errors never change which connection is active or where
      it points, so they never restart the active-connection effect. */
  lemma EventsKeepConnection(s: State, payload: seq<Gpu>, now: int, message: string)
    ensures ConnectionKey(ActiveConnection(OnGpuData(s, payload, now))) == ConnectionKey(ActiveConnection(s))
    ensures ConnectionKey(ActiveConnection(OnGpuError(s, message))) == ConnectionKey(ActiveConnection(s))
  {
    var d, e := OnGpuData(s, payload, now), OnGpuError(s, message);
    if s.activeId.Some? {
      var id := s.activeId.value;
      FindIdSameIds(s.profiles, d.profiles, id);
      FindIdSameIds(s.profiles, e.profiles, id);
    }
  }

  /** Two lists whose ids agree position by position find an id at the same
      place. */
  lemma {:induction false} FindIdSameIds(a: seq<Profile>, b: seq<Profile>, id: string)
    requires |a| == |b| && forall i :: 0 <= i < |a| ==> a[i].id == b[i].id
    ensures FindId(a, id) == FindId(b, id)
    decreases |a|
  {
    if |a| > 0 && a[0].id != id {
      FindIdSameIds(a[1..], b[1..], id);
    }
  }

  /** A reading marks the active profile successful. */
  lemma DataMarksActive(s: State, payload: seq<Gpu>, now: int)
    requires HasActiveId(s) && ActiveConnection(s).Some?
    ensures ActiveConnection(OnGpuData(s, payload, now)) == Some(MarkSuccess(ActiveConnection(s).value, now))
  {
    FindIdSameIds(s.profiles, OnGpuData(s, payload, now).profiles, s.activeId.value);
  }

  /** An error marks the active profile failed, stores the message, and
      keeps its error code (empty when it had none). */
  lemma ErrorMarksActive(s: State, message: string)
    requires HasActiveId(s) && ActiveConnection(s).Some?
    ensures var p := ActiveConnection(s).value;
            var q := ActiveConnection(OnGpuError(s, message)).value;
            ActiveConnection(OnGpuError(s, message)).Some?
            && q.lastTestStatus == Failed && q.lastErrorMessage == Some(message)
            && (p.lastErrorCode.Some? ==> q.lastErrorCode == p.lastErrorCode)
            && (p.lastErrorCode.None? ==> q.lastErrorCode == Some(""))
            && q.(lastTestStatus := p.lastTestStatus, lastErrorCode := p.lastErrorCode, lastErrorMessage := p.lastErrorMessage) == p
  {
    FindIdSameIds(s.profiles, OnGpuError(s, message).profiles, s.activeId.value);
  }

  /** Without an active id, neither event touches the profiles. */
  lemma EventsWithoutActiveId(s: State, payload: seq<Gpu>, now: int, message: string)
    requires !HasActiveId(s)
    ensures OnGpuData(s, payload, now).profiles == s.profiles
    ensures OnGpuError(s, message).profiles == s.profiles
  {
  }

  // ---------------------------------------------------------------------
  // Effects

  /** The active-connection effect: with no active profile the metadata is
      reset and the back end told to disconnect; otherwise the metadata
      moves to `connecting` at the profile's address, the readings and the
      inline error are cleared, and the back end told to connect there.
      The second result is the `SetConnection(target, port)` call. */
  function ActiveEffect(s: State): (r: (State, (string, int)))
    ensures ActiveConnection(s).None? ==> r.0 == s.(meta := EmptyMeta) && r.1 == ("", 0)
    ensures ActiveConnection(s).Some? ==>
              var p := ActiveConnection(s).value;
              && r.1 == (p.target, p.port)
              && r.0.meta == s.meta.(status := Connecting, activeTarget := p.target, activePort := p.port)
              && r.0.gpus == [] && r.0.inlineError == ""
    ensures r.0.profiles == s.profiles && r.0.activeId == s.activeId && r.0.hostInput == s.hostInput
  {
    match ActiveConnection(s)
    case None => (s.(meta := EmptyMeta), ("", 0))
    case Some(p) =>
      (s.(meta := s.meta.(status := Connecting, activeTarget := p.target, activePort := p.port), inlineError := "", gpus := []),
       (p.target, p.port))
  }

  /** Running the effect again changes nothing and asks for the same
      connection. */
  lemma ActiveEffectIdempotent(s: State)
    ensures ActiveEffect(ActiveEffect(s).0) == (ActiveEffect(s).0, ActiveEffect(s).1)
  {
    var t := ActiveEffect(s).0;
    assert ActiveConnection(t) == ActiveConnection(s);
  }

  /** The port the input box shows: a missing (zero) port is 22. */
  function ShownPort(port: int): int
  {
    if port == 0 then 22 else port
  }

  /** The text the input box shows for a connection: the target alone on
      port 22, otherwise `target:port`. */
  function HostText(target: string, port: int): (t: string)
    ensures ShownPort(port) == 22 ==> t == target
    ensures ShownPort(port) != 22 ==> t == target + ":" + IntToString(ShownPort(port))
  {
    var p := ShownPort(port);
    if p == 22 then target else target + ":" + IntToString(p)
  }

  /** The mini-input sync: the input box follows the active connection and
      is left alone when there is none. */
  function SyncHostInput(s: State): (r: State)
    ensures ActiveConnection(s).None? ==> r == s
    ensures ActiveConnection(s).Some? ==> r == s.(hostInput := HostText(ActiveConnection(s).value.target, ActiveConnection(s).value.port))
  {
    match ActiveConnection(s)
    case None => s
    case Some(p) => s.(hostInput := HostText(p.target, p.port))
  }

  // ---------------------------------------------------------------------
  // Handlers

  /** Index of the last `c` in `s`, or -1 (`String.prototype.lastIndexOf`). */
  function LastIndexOf(s: string, c: char): (i: int)
    ensures -1 <= i < |s|
    ensures i >= 0 ==> s[i] == c
    ensures forall k :: i < k < |s| ==> s[k] != c
  {
    if |s| == 0 then -1
    else if s[|s| - 1] == c then |s| - 1
    else LastIndexOf(s[..|s| - 1], c)
  }

  /** A port the input box accepts. */
  predicate ValidPort(n: int)
  {
    1 <= n <= 65535
  }

  /** The port after the last colon: the text as a JavaScript `Number`, kept
      when it is an integer in range. */
  function PortOf(text: string): (r: Option<int>)
    ensures r.Some? ==> ValidPort(r.value)
    ensures |text| > 0 && AllDigits(text) && ValidPort(DigitsValue(text)) ==> r == Some(DigitsValue(text))
  {
    JsIntegerOfDigits(text);
    match JsIntegerValue(text)
    case Some(n) => if ValidPort(n) then Some(n) else None
    case None => None
  }

  /** `raw` is `target`, a colon, and the text of `port`. */
  predicate SplitsAt(raw: string, target: string, port: int)
  {
    && 0 < |target| < |raw| - 1
    && raw[..|target|] == target && raw[|target|] == ':'
    && PortOf(raw[|target| + 1..]) == Some(port)
  }

  /** A trimmed, non-blank input split into target and port: at the last
      colon when it is neither first nor last and a port follows, otherwise
      all target on port 22. */
  function SplitHostPort(raw: string): (r: (string, int))
    ensures r == (raw, 22) || (SplitsAt(raw, r.0, r.1) && ValidPort(r.1))
    ensures SplitsAt(raw, r.0, r.1) ==> forall k :: |r.0| < k < |raw| ==> raw[k] != ':'
  {
    var colon := LastIndexOf(raw, ':');
    if 0 < colon < |raw| - 1 && PortOf(raw[colon + 1..]).Some? then
      var target := raw[..colon];
      assert |target| == colon && raw[..|target|] == target;
      (target, PortOf(raw[colon + 1..]).value)
    else (raw, 22)
  }

  /** The input box read as `(target, port)`; blank input is nothing. */
  function ParseHostInput(input: string): (r: Option<(string, int)>)
    ensures r.None? <==> JsTrim(input) == ""
    ensures r.Some? ==> r.value == (JsTrim(input), 22) || (SplitsAt(JsTrim(input), r.value.0, r.value.1) && ValidPort(r.value.1))
  {
    var raw := JsTrim(input);
    if raw == "" then None else Some(SplitHostPort(raw))
  }

  /** What the input box shows for a connection reads back as that
      connection, for a target without colons or surrounding whitespace. */
  lemma ParseHostText(target: string, port: int)
    requires |target| > 0 && JsTrim(target) == target && ':' !in target
    requires ValidPort(port)
    ensures ParseHostInput(HostText(target, port)) == Some((target, port))
  {
    if port != 22 {
      ParseHostWithPort(target, port);
    } else {
      var t := HostText(target, port);
      assert t == target;
      assert LastIndexOf(t, ':') == -1;
    }
  }

  /** An address with a port other than 22 reads back as both parts. */
  lemma ParseHostWithPort(target: string, port: int)
    requires |target| > 0 && JsTrim(target) == target && ':' !in target
    requires ValidPort(port) && port != 22
    ensures ParseHostInput(target + ":" + IntToString(port)) == Some((target, port))
  {
    var digits := IntToString(port);
    PortDigits(port);
    HostTextUntrimmed(target, digits);
    LastIndexAfter(target, digits);
    SplitAtLastColon(target, digits, port);
  }

  /** The text of a valid port is digits, and reads back as that port. */
  lemma PortDigits(port: int)
    requires ValidPort(port)
    ensures var d := IntToString(port);
            |d| > 0 && AllDigits(d) && ':' !in d && PortOf(d) == Some(port)
  {
    var d := IntToString(port);
    assert ':' !in d by {
      forall k | 0 <= k < |d| ensures d[k] != ':' { assert IsDigit(d[k]); }
    }
  }

  /** Split at its last colon, `target:digits` gives back the target and the
      port the digits spell. */
  lemma SplitAtLastColon(target: string, digits: string, port: int)
    requires |target| > 0 && |digits| > 0 && PortOf(digits) == Some(port)
    requires LastIndexOf(target + ":" + digits, ':') == |target|
    ensures SplitHostPort(target + ":" + digits) == (target, port)
  {
    var t := target + ":" + digits;
    assert t[|target| + 1..] == digits;
    assert t[..|target|] == target;
  }

  /** A trimmed target followed by a colon and digits has nothing to trim. */
  lemma HostTextUntrimmed(target: string, digits: string)
    requires |target| > 0 && JsTrim(target) == target
    requires |digits| > 0 && AllDigits(digits)
    ensures JsTrim(target + ":" + digits) == target + ":" + digits
  {
    var t := target + ":" + digits;
    assert t[0] == target[0];
    assert !IsJsSpace(JsTrim(target)[0]);
    assert t[|t| - 1] == digits[|digits| - 1];
    assert IsDigit(digits[|digits| - 1]);
  }

  lemma {:induction false} LastIndexAfter(target: string, digits: string)
    requires ':' !in digits
    ensures LastIndexOf(target + ":" + digits, ':') == |target|
    decreases |digits|
  {
    var t := target + ":" + digits;
    if |digits| == 0 {
      assert t[|t| - 1] == ':';
    } else {
      assert t[|t| - 1] == digits[|digits| - 1];
      assert t[..|t| - 1] == target + ":" + digits[..|digits| - 1];
      LastIndexAfter(target, digits[..|digits| - 1]);
    }
  }

  /** The outcome of the connection test the back end runs. */
  datatype TestResult = TestResult(success: bool, code: string, message: string)

  /** Index of the first profile for `target` and `port`, or `|ps|`. */
  function FindAddress(ps: seq<Profile>, target: string, port: int): (i: nat)
    ensures i <= |ps|
    ensures forall k :: 0 <= k < i ==> !(ps[k].target == target && ps[k].port == port)
    ensures i < |ps| ==> ps[i].target == target && ps[i].port == port
    decreases |ps|
  {
    if |ps| == 0 || (ps[0].target == target && ps[0].port == port) then 0
    else 1 + FindAddress(ps[1..], target, port)
  }

  /** A profile created from the input box. */
  function NewProfile(id: string, target: string, port: int, now: int, test: TestResult): Profile
  {
    Profile(id, target, target, port, Manual,
      if test.success then Some(now) else None,
      if test.success then Success else Failed,
      Some(if test.success then "" else test.code),
      Some(if test.success then "" else test.message))
  }

  /** Connecting from the input box. Blank input does nothing. An address
      already saved becomes active and nothing else changes; a new address
      is saved in front of the others, and becomes active only when its test
      succeeded. */
  function MiniConnect(s: State, freshId: string, now: int, test: TestResult): (r: State)
    ensures ParseHostInput(s.hostInput).None? ==> r == s
    ensures r.gpus == s.gpus && r.meta == s.meta && r.inlineError == s.inlineError && r.hostInput == s.hostInput
    ensures ParseHostInput(s.hostInput).Some? ==>
              var (target, port) := ParseHostInput(s.hostInput).value;
              var i := FindAddress(s.profiles, target, port);
              && (i < |s.profiles| ==> r.profiles == s.profiles && r.activeId == Some(s.profiles[i].id))
              && (i == |s.profiles| ==>
                    && r.profiles == [NewProfile(freshId, target, port, now, test)] + s.profiles
                    && r.activeId == if test.success then Some(freshId) else s.activeId)
  {
    match ParseHostInput(s.hostInput)
    case None => s
    case Some((target, port)) =>
      var i := FindAddress(s.profiles, target, port);
      if i < |s.profiles| then s.(activeId := Some(s.profiles[i].id))
      else
        var p := NewProfile(freshId, target, port, now, test);
        s.(profiles := [p] + s.profiles, activeId := if test.success then Some(freshId) else s.activeId)
  }

  /** No two profiles share an id. */
  predicate UniqueIds(ps: seq<Profile>)
  {
    forall i, j :: 0 <= i < j < |ps| ==> ps[i].id != ps[j].id
  }

  predicate IdUnused(ps: seq<Profile>, id: string)
  {
    forall k :: 0 <= k < |ps| ==> ps[k].id != id
  }

  /** With a fresh id, connecting keeps ids unique. */
  lemma MiniConnectKeepsIdsUnique(s: State, freshId: string, now: int, test: TestResult)
    requires UniqueIds(s.profiles) && IdUnused(s.profiles, freshId)
    ensures UniqueIds(MiniConnect(s, freshId, now, test).profiles)
  {
    var ps := MiniConnect(s, freshId, now, test).profiles;
    if ps != s.profiles {
      var (target, port) := ParseHostInput(s.hostInput).value;
      var p := NewProfile(freshId, target, port, now, test);
      assert ps == [p] + s.profiles;
      ConsKeepsIdsUnique(p, s.profiles);
    }
  }

  /** Putting a profile with an unused id in front keeps ids unique. */
  lemma ConsKeepsIdsUnique(p: Profile, ps: seq<Profile>)
    requires UniqueIds(ps) && IdUnused(ps, p.id)
    ensures UniqueIds([p] + ps)
  {
    var qs := [p] + ps;
    forall a, b | 0 <= a < b < |qs| ensures qs[a].id != qs[b].id {
      assert qs[b] == ps[b - 1];
      if a > 0 {
        assert qs[a] == ps[a - 1];
      }
    }
  }

  /** Whenever the input names a connection that connecting makes active,
      the active connection is then at the address typed. */
  lemma MiniConnectActivates(s: State, freshId: string, now: int, test: TestResult)
    requires UniqueIds(s.profiles)
    requires ParseHostInput(s.hostInput).Some?
    ensures var r := MiniConnect(s, freshId, now, test);
            var (target, port) := ParseHostInput(s.hostInput).value;
            (FindAddress(s.profiles, target, port) < |s.profiles| || test.success) ==>
              ActiveConnection(r).Some? && ActiveConnection(r).value.target == target && ActiveConnection(r).value.port == port
  {
    var (target, port) := ParseHostInput(s.hostInput).value;
    var i := FindAddress(s.profiles, target, port);
    if i < |s.profiles| {
      assert FindId(s.profiles, s.profiles[i].id) == i;
    }
  }

  /** The profiles whose id is not `id`, in their order. */
  function WithoutId(ps: seq<Profile>, id: string): (r: seq<Profile>)
    ensures |r| <= |ps|
    ensures forall p :: p in r <==> p in ps && p.id != id
    decreases |ps|
  {
    if |ps| == 0 then []
    else
      var rest := WithoutId(ps[1..], id);
      assert forall p :: p in ps <==> p == ps[0] || p in ps[1..];
      if ps[0].id == id then rest else [ps[0]] + rest
  }

  /** Deleting a profile removes every profile with its id; deleting the
      active one also clears the active id, the readings and the
      metadata. */
  function Delete(s: State, id: string): (r: State)
    ensures r.profiles == WithoutId(s.profiles, id)
    ensures s.activeId == Some(id) ==> r.activeId == None && r.gpus == [] && r.meta == EmptyMeta
    ensures s.activeId != Some(id) ==> r.activeId == s.activeId && r.gpus == s.gpus && r.meta == s.meta
    ensures r.inlineError == s.inlineError && r.hostInput == s.hostInput
  {
    var ps := WithoutId(s.profiles, id);
    if s.activeId == Some(id) then s.(profiles := ps, activeId := None, gpus := [], meta := EmptyMeta)
    else s.(profiles := ps)
  }

  /** Filtering keeps the order of what it keeps: the kept profiles are the
      original list with the deleted ones taken out. */
  lemma {:induction false} WithoutIdKeepsOrder(ps: seq<Profile>, id: string)
    ensures WithoutId(ps, id) == if |ps| == 0 then [] else (if ps[0].id == id then [] else [ps[0]]) + WithoutId(ps[1..], id)
    ensures IdUnused(ps, id) ==> WithoutId(ps, id) == ps
    decreases |ps|
  {
    if |ps| > 0 {
      WithoutIdKeepsOrder(ps[1..], id);
      if IdUnused(ps, id) {
        assert IdUnused(ps[1..], id);
        assert ps == [ps[0]] + ps[1..];
      }
    }
  }

  /** Deleting twice is deleting once. */
  lemma DeleteIdempotent(s: State, id: string)
    ensures Delete(Delete(s, id), id) == Delete(s, id)
  {
    var ps := WithoutId(s.profiles, id);
    WithoutIdKeepsOrder(ps, id);
  }

  /** Deleting the active profile leaves no active connection, so the
      active-connection effect resets the metadata and disconnects. */
  lemma DeleteActiveDisconnects(s: State, id: string)
    requires s.activeId == Some(id)
    ensures ActiveConnection(Delete(s, id)).None?
    ensures ActiveEffect(Delete(s, id)).1 == ("", 0)
    ensures ActiveEffect(Delete(s, id)).0.meta == EmptyMeta
  {
  }

  /** Deleting another profile leaves the active connection as it was. */
  lemma DeleteOtherKeepsActive(s: State, id: string)
    requires s.activeId.Some? && s.activeId.value != id
    ensures ActiveConnection(Delete(s, id)) == ActiveConnection(s)
  {
    LookupWithout(s.profiles, id, s.activeId.value);
  }

  /** Removing other ids does not change which profile an id finds. */
  lemma {:induction false} LookupWithout(ps: seq<Profile>, id: string, other: string)
    requires other != id
    ensures Lookup(WithoutId(ps, id), other) == Lookup(ps, other)
    decreases |ps|
  {
    if |ps| > 0 {
      LookupWithout(ps[1..], id, other);
      if ps[0].id != id {
        assert WithoutId(ps, id)[1..] == WithoutId(ps[1..], id);
      }
    }
  }

  // ---------------------------------------------------------------------
  // Storage and time

  const StorageVersion: string := "2"
  const VersionKey: string := "nvSmiStorageVersion"
  const ConnectionsKey: string := "nvSmiV2Connections"
  const ActiveIdKey: string := "nvSmiV2ActiveConnectionId"
  const DisplayModeKey: string := "nvSmiV2DisplayMode"
  const LegacyHostKey: string := "nvSmiHost"
  const LegacySettingsKey: string := "nvSmiSettings"

  /** The keys a migration clears. */
  const ClearedKeys: set<string> := {LegacyHostKey, LegacySettingsKey, ConnectionsKey, ActiveIdKey, DisplayModeKey}

  /** `migrateStorage` on local storage: a store already at version 2 is left
      alone; any other loses the legacy and version-2 keys and is stamped
      with version 2. */
  function MigrateStorage(store: map<string, string>): (r: map<string, string>)
    ensures VersionKey in r && r[VersionKey] == StorageVersion
    ensures VersionKey in store && store[VersionKey] == StorageVersion ==> r == store
    ensures !(VersionKey in store && store[VersionKey] == StorageVersion) ==>
              && (forall k :: k in ClearedKeys ==> k !in r)
              && (forall k :: k !in ClearedKeys && k != VersionKey ==> (k in r <==> k in store))
              && (forall k :: k in r && k != VersionKey ==> r[k] == store[k])
  {
    if VersionKey in store && store[VersionKey] == StorageVersion then store
    else (store - ClearedKeys)[VersionKey := StorageVersion]
  }

  /** Migrating twice is migrating once. */
  lemma MigrateIdempotent(store: map<string, string>)
    ensures MigrateStorage(MigrateStorage(store)) == MigrateStorage(store)
  {
  }

  /** Units of a relative time. */
  datatype TimeUnit = Seconds | Minutes | Hours

  function UnitSeconds(u: TimeUnit): nat
  {
    match u
    case Seconds => 1
    case Minutes => 60
    case Hours => 3600
  }

  function UnitSuffix(u: TimeUnit): string
  {
    match u
    case Seconds => "s ago"
    case Minutes => "m ago"
    case Hours => "h ago"
  }

  /** Whole seconds from `ts` to `now`, both in milliseconds, never
      negative. */
  function ElapsedSeconds(ts: int, now: int): (d: nat)
    ensures 1000 * d <= (if now - ts < 0 then 0 else now - ts)
    ensures now - ts >= 0 ==> now - ts < 1000 * (d + 1)
  {
    var f := (now - ts) / 1000;
    if f < 0 then 0 else f
  }

  /** The unit a relative time is shown in: the largest that fits, hours at
      most. */
  function UnitFor(d: nat): (u: TimeUnit)
    ensures UnitSeconds(u) <= d || u == Seconds
    ensures u != Hours ==> d < 60 * UnitSeconds(u)
  {
    if d < 60 then Seconds else if d < 3600 then Minutes else Hours
  }

  /** `formatRelative` at time `now`: "never" for a missing or zero
      timestamp, otherwise the elapsed time, rounded down, in its unit. */
  function FormatRelative(ts: Option<int>, now: int): (r: string)
    ensures ts.None? || ts.value == 0 ==> r == "never"
    ensures ts.Some? && ts.value != 0 ==>
              var d := ElapsedSeconds(ts.value, now);
              var u := UnitFor(d);
              r == NatToString(d / UnitSeconds(u)) + UnitSuffix(u)
  {
    if ts.None? || ts.value == 0 then "never"
    else
      var d := ElapsedSeconds(ts.value, now);
      var u := UnitFor(d);
      NatToString(d / UnitSeconds(u)) + UnitSuffix(u)
  }

  /** The count in a relative time is the elapsed time in its unit, rounded
      down, and a later clock never shows a smaller elapsed time. */
  lemma RelativeCount(ts: int, now: int, later: int)
    requires now <= later
    ensures var d := ElapsedSeconds(ts, now);
            var n := d / UnitSeconds(UnitFor(d));
            n * UnitSeconds(UnitFor(d)) <= d < (n + 1) * UnitSeconds(UnitFor(d))
    ensures ElapsedSeconds(ts, now) <= ElapsedSeconds(ts, later)
  {
    var d := ElapsedSeconds(ts, now);
    var s := UnitSeconds(UnitFor(d));
    var n := d / s;
    assert d == s * n + d % s;
    var f1, f2 := (now - ts) / 1000, (later - ts) / 1000;
    assert f1 <= f2;
  }
}
