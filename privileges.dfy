/** How a login turns a MinePass record's privilege strings into a Minecraft
    game type: one unanchored search for `mc:(?<name>[a-z]+)` per string, a
    switch over the captured name, and a loop in which the last recognised
    name wins. */
module PrivilegeParsing {

  datatype Option<T> = None | Some(value: T)

  /** WorldSettings.GameType of the Forge 1.7.10 host. */
  datatype GameType = NotSet | Survival | Creative | Adventure

  /** The character class `[a-z]`. */
  predicate IsLower(c: char) {
    'a' <= c <= 'z'
  }

  /** The pattern `mc:[a-z]+` can start a match at position `i` of `p`: the
      literal `mc:` followed by at least one lower-case letter. */
  predicate MatchesAt(p: string, i: int) {
    0 <= i && i + 3 < |p| && p[i] == 'm' && p[i + 1] == 'c' && p[i + 2] == ':' && IsLower(p[i + 3])
  }

  /** Declarative reading of `Matcher.find()` followed by `group("name")`:
      the match starts at `i`, no earlier position matches, and `name` is the
      greedy (maximal) run of lower-case letters after the `mc:`. */
  ghost predicate FirstCaptureAt(p: string, i: nat, name: string) {
    && MatchesAt(p, i)
    && (forall j :: 0 <= j < i ==> !MatchesAt(p, j))
    && i + 3 + |name| <= |p|
    && name == p[i + 3 .. i + 3 + |name|]
    && (forall k :: 0 <= k < |name| ==> IsLower(name[k]))
    && (i + 3 + |name| == |p| || !IsLower(p[i + 3 + |name|]))
  }

  /** The leftmost position at or after `from` where the pattern matches. */
  function FirstMatchFrom(p: string, from: nat): (r: Option<nat>)
    requires from <= |p|
    decreases |p| - from
    ensures r.Some? ==> from <= r.value && MatchesAt(p, r.value)
    ensures r.Some? ==> forall j :: from <= j < r.value ==> !MatchesAt(p, j)
    ensures r.None? ==> forall j :: from <= j < |p| ==> !MatchesAt(p, j)
  {
    if from == |p| then None
    else if MatchesAt(p, from) then Some(from)
    else FirstMatchFrom(p, from + 1)
  }

  /** End of the greedy `[a-z]+` run that starts at `k`. */
  function LowerRunEnd(p: string, k: nat): (e: nat)
    requires k <= |p|
    decreases |p| - k
    ensures k <= e <= |p|
    ensures forall j :: k <= j < e ==> IsLower(p[j])
    ensures e == |p| || !IsLower(p[e])
  {
    if k < |p| && IsLower(p[k]) then LowerRunEnd(p, k + 1) else k
  }

  /** The text of group `name` after one `find()` on `p`, or None when
      `find()` fails. */
  function CapturedName(p: string): (r: Option<string>)
    ensures r.None? <==> forall i :: 0 <= i < |p| ==> !MatchesAt(p, i)
  {
    match FirstMatchFrom(p, 0)
    case None => None
    case Some(i) => Some(p[i + 3 .. LowerRunEnd(p, i + 3)])
  }

  /** Every name CapturedName returns is a capture in the sense of
      FirstCaptureAt, at the position this lemma returns. */
  lemma CapturedNameIsCapture(p: string) returns (i: nat)
    requires CapturedName(p).Some?
    ensures FirstCaptureAt(p, i, CapturedName(p).value)
  {
    i := FirstMatchFrom(p, 0).value;
  }

  /** Every capture in the sense of FirstCaptureAt is the one CapturedName
      returns: the two definitions agree on all strings. */
  lemma CaptureIsCapturedName(p: string, i: nat, name: string)
    requires FirstCaptureAt(p, i, name)
    ensures CapturedName(p) == Some(name)
  {
    var stop := i + 3 + |name|;
    assert FirstMatchFrom(p, 0) == Some(i);
    assert forall k :: i + 3 <= k < stop ==> p[k] == name[k - i - 3];
    assert LowerRunEnd(p, i + 3) == stop;
  }

  /** The lower-case token the switch in onLogin compares against for a mode.
      `NotSet` has no case there; it maps to the empty string, which no
      captured name equals, since `[a-z]+` captures at least one letter. */
  function TokenOf(g: GameType): string {
    match g
    case NotSet => ""
    case Survival => "survival"
    case Creative => "creative"
    case Adventure => "adventure"
  }

  /** The switch over the captured name: only `survival`, `creative` and
      `adventure` are recognised. */
  function GameTypeNamed(name: string): (r: Option<GameType>)
    ensures r.Some? ==> r.value != NotSet && TokenOf(r.value) == name
    ensures r.None? ==> forall g: GameType :: g != NotSet ==> TokenOf(g) != name
  {
    if name == "survival" then Some(Survival)
    else if name == "creative" then Some(Creative)
    else if name == "adventure" then Some(Adventure)
    else None
  }

  /** The game type one privilege string grants on its own, if any. */
  function PrivilegeMode(p: string): Option<GameType> {
    match CapturedName(p)
    case None => None
    case Some(name) => GameTypeNamed(name)
  }

  /** `f` applied to each privilege, in record order. */
  function MapPrivileges(f: string -> Option<GameType>, ps: seq<string>): seq<Option<GameType>> {
    seq(|ps|, i requires 0 <= i < |ps| => f(ps[i]))
  }

  /** Mapping distributes over concatenation of privilege lists. */
  lemma MapPrivilegesAppend(f: string -> Option<GameType>, ps: seq<string>, qs: seq<string>)
    ensures MapPrivileges(f, ps + qs) == MapPrivileges(f, ps) + MapPrivileges(f, qs)
  {
    var whole, front, back := MapPrivileges(f, ps + qs), MapPrivileges(f, ps), MapPrivileges(f, qs);
    forall k | 0 <= k < |whole| ensures whole[k] == (front + back)[k] {
      if k < |ps| {
        assert (ps + qs)[k] == ps[k];
      } else {
        assert (ps + qs)[k] == qs[k - |ps|];
      }
    }
  }

  /** The game type each privilege names on its own, in record order. */
  function PrivilegeModes(ps: seq<string>): (ms: seq<Option<GameType>>)
    ensures |ms| == |ps|
    ensures forall i :: 0 <= i < |ps| ==> ms[i] == PrivilegeMode(ps[i])
  {
    MapPrivileges(PrivilegeMode, ps)
  }

  /** The last recognised mode of `ms`, if any. */
  function LastMode(ms: seq<Option<GameType>>): Option<GameType> {
    if ms == [] then None
    else if ms[|ms| - 1].Some? then ms[|ms| - 1]
    else LastMode(ms[..|ms| - 1])
  }

  /** The value of `minecraftGameMode` once the loop has seen `ps`. */
  function ResolvedMode(ps: seq<string>): Option<GameType> {
    LastMode(PrivilegeModes(ps))
  }

  /** Position `i` of `ms` holds the last recognised mode. */
  ghost predicate LastRecognisedAt(ms: seq<Option<GameType>>, i: int) {
    && 0 <= i < |ms|
    && ms[i].Some?
    && forall j :: i < j < |ms| ==> ms[j].None?
  }

  /** No mode results exactly when no entry is recognised. */
  lemma {:induction false} LastModeNone(ms: seq<Option<GameType>>)
    ensures LastMode(ms).None? <==> forall i :: 0 <= i < |ms| ==> ms[i].None?
  {
    if ms != [] {
      var n := |ms| - 1;
      LastModeNone(ms[..n]);
      assert forall i :: 0 <= i < n ==> ms[..n][i] == ms[i];
    }
  }

  /** When a mode results, some entry is the last recognised one. */
  lemma {:induction false} LastModeWitness(ms: seq<Option<GameType>>) returns (i: int)
    requires LastMode(ms).Some?
    ensures LastRecognisedAt(ms, i)
  {
    var n := |ms| - 1;
    if ms[n].Some? {
      i := n;
    } else {
      i := LastModeWitness(ms[..n]);
      assert forall j :: i < j < n ==> ms[..n][j] == ms[j];
    }
  }

  /** Last recognised wins: the result is the last recognised entry. */
  lemma {:induction false} LastModeIsLast(ms: seq<Option<GameType>>, i: int)
    requires LastRecognisedAt(ms, i)
    ensures LastMode(ms) == ms[i]
  {
    var n := |ms| - 1;
    if i < n {
      assert ms[n].None?;
      assert forall j :: 0 <= j < n ==> ms[..n][j] == ms[j];
      LastModeIsLast(ms[..n], i);
    }
  }

  /** Later entries override earlier ones: appending `ns` keeps the mode of
      `ms` only when `ns` yields none. */
  lemma {:induction false} LastModeAppend(ms: seq<Option<GameType>>, ns: seq<Option<GameType>>)
    ensures LastMode(ms + ns) == if LastMode(ns).Some? then LastMode(ns) else LastMode(ms)
  {
    if ns == [] {
      assert ms + ns == ms;
    } else {
      var n := |ns| - 1;
      assert (ms + ns)[..|ms + ns| - 1] == ms + ns[..n];
      LastModeAppend(ms, ns[..n]);
    }
  }

  /** The same for privilege strings: a later record segment that names a
      recognised mode overrides everything before it, and one that names
      none leaves the earlier result alone. */
  lemma ResolvedModeAppend(ps: seq<string>, qs: seq<string>)
    ensures ResolvedMode(ps + qs) == if ResolvedMode(qs).Some? then ResolvedMode(qs) else ResolvedMode(ps)
  {
    MapPrivilegesAppend(PrivilegeMode, ps, qs);
    LastModeAppend(PrivilegeModes(ps), PrivilegeModes(qs));
  }

  /** The loop at the heart of onLogin: scan the privileges in order and let
      every recognised mode overwrite the one found so far. */
  method ResolveGameMode(privileges: seq<string>) returns (mode: Option<GameType>)
    ensures mode == ResolvedMode(privileges)
    ensures mode.None? <==> forall i :: 0 <= i < |privileges| ==> PrivilegeMode(privileges[i]).None?
    ensures forall i :: LastRecognisedAt(PrivilegeModes(privileges), i) ==> mode == PrivilegeMode(privileges[i])
  {
    mode := None;
    var i := 0;
    while i < |privileges|
      invariant 0 <= i <= |privileges|
      invariant mode == ResolvedMode(privileges[..i])
    {
      assert PrivilegeModes(privileges[..i + 1]) == PrivilegeModes(privileges[..i]) + [PrivilegeMode(privileges[i])];
      var found := CapturedName(privileges[i]);
      if found.Some? {
        var named := GameTypeNamed(found.value);
        if named.Some? {
          mode := named;
        }
      }
      i := i + 1;
    }
    assert privileges[..i] == privileges;
    var ms := PrivilegeModes(privileges);
    LastModeNone(ms);
    forall j | LastRecognisedAt(ms, j) ensures mode == PrivilegeMode(privileges[j]) {
      LastModeIsLast(ms, j);
    }
  }

  /** A privilege that is exactly `mc:` followed by lower-case letters
      captures those letters. */
  lemma TokenCapture(name: string)
    requires |name| > 0 && forall k :: 0 <= k < |name| ==> IsLower(name[k])
    ensures CapturedName("mc:" + name) == Some(name)
  {
    var p := "mc:" + name;
    assert p[3..3 + |name|] == name;
    CaptureIsCapturedName(p, 0, name);
  }

  /** A later `mc:creative` overrides an earlier `mc:survival`. */
  lemma LaterModeWins()
    ensures ResolvedMode(["mc:survival", "mc:creative"]) == Some(Creative)
  {
    TokenCapture("creative");
    assert "mc:creative" == "mc:" + "creative";
    assert PrivilegeModes(["mc:survival", "mc:creative"])[1] == Some(Creative);
  }

  /** `mc:default` is not a recognised mode, so it does not displace an
      earlier `mc:creative`. */
  lemma DefaultIsNotAMode()
    ensures ResolvedMode(["mc:creative", "mc:default"]) == Some(Creative)
  {
    TokenCapture("creative");
    TokenCapture("default");
    assert "mc:creative" == "mc:" + "creative";
    assert "mc:default" == "mc:" + "default";
    assert PrivilegeModes(["mc:creative", "mc:default"]) == [Some(Creative), None];
  }

  /** The capture is greedy: `mc:survivalx` names `survivalx`, which is not
      a mode. */
  lemma CaptureIsGreedy()
    ensures PrivilegeMode("mc:survivalx").None?
  {
    TokenCapture("survivalx");
    assert "mc:survivalx" == "mc:" + "survivalx";
  }

  /** The character class is case-sensitive: `mc:Survival` does not match. */
  lemma CaptureIsCaseSensitive()
    ensures CapturedName("mc:Survival").None?
  {
  }

  /** The search is unanchored: text before `mc:` is skipped. */
  lemma SearchIsUnanchored()
    ensures PrivilegeMode("world mc:adventure") == Some(Adventure)
  {
    var p := "world mc:adventure";
    assert p[9..18] == "adventure";
    CaptureIsCapturedName(p, 6, "adventure");
  }

  /** Only the first match counts: in `mc:mc:creative` it captures `mc`. */
  lemma OnlyFirstMatchCounts()
    ensures PrivilegeMode("mc:mc:creative").None?
  {
    var p := "mc:mc:creative";
    assert p[3..5] == "mc";
    CaptureIsCapturedName(p, 0, "mc");
  }
}
