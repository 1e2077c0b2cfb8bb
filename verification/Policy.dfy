/** The policy engine: what the roles a caller matches let a certificate carry.
    `path.Match` is a parameter, so every result holds for any glob semantics. */
module Policy {
  import opened Wrappers
  import opened Durations
  import opened Roles
  import opened RoleIndex

  datatype Denial = NoRole | EmptyDecision | InvalidPattern

  datatype CapField = UserCap | HostCap | X509Cap

  datatype MatchOutcome = Matches | NoMatch | BadPattern

  /** `path.Match(pattern, name)`. */
  type Glob = (string, string) -> MatchOutcome

  datatype UserDecision = UserDecision(principals: seq<string>, ttl: int, extensions: map<string, string>)

  datatype HostDecision = HostDecision(principals: seq<string>, ttl: int)

  datatype X509Decision = X509Decision(spiffeURI: string, ttl: int)

  // -------------------------------------------------------------------------------------
  // The pieces of a decision
  // -------------------------------------------------------------------------------------

  function Min(a: int, b: int): int {
    if a < b then a else b
  }

  function RoleCap(r: Role, field: CapField): int64 {
    match field
    case UserCap => r.maxUserCertTTLSeconds
    case HostCap => r.maxHostCertTTLSeconds
    case X509Cap => r.maxX509CertTTLSeconds
  }

  /** One role's ceiling: its seconds as a (wrapping) duration, the endpoint's when zero or above it. */
  function EffectiveCap(r: Role, endpoint: int, field: CapField): int {
    var eff := Seconds(RoleCap(r, field));
    if eff == 0 || eff > endpoint then endpoint else eff
  }

  /** The most permissive ceiling across the roles. */
  function MaxCap(roles: seq<Role>, endpoint: int, field: CapField): int {
    if roles == [] then 0
    else
      var rest := MaxCap(roles[..|roles| - 1], endpoint, field);
      var eff := EffectiveCap(roles[|roles| - 1], endpoint, field);
      if eff > rest then eff else rest
  }

  function Allowed(roles: seq<Role>): set<string> {
    set r, p | r in roles && p in r.allowedPrincipals :: p
  }

  function MergedExtensions(roles: seq<Role>): map<string, string> {
    if roles == [] then map[]
    else MergedExtensions(roles[..|roles| - 1]) + roles[|roles| - 1].defaultExtensions
  }

  function PatternsOf(r: Role, field: CapField): seq<string> {
    if field.HostCap? then r.hostPatterns else r.spiffePatterns
  }

  function Patterns(roles: seq<Role>, field: CapField): seq<string> {
    if roles == [] then []
    else Patterns(roles[..|roles| - 1], field) + PatternsOf(roles[|roles| - 1], field)
  }

  predicate WellFormed(glob: Glob, patterns: seq<string>) {
    forall p :: p in patterns ==> glob(p, "") != BadPattern
  }

  predicate MatchesSome(glob: Glob, name: string, patterns: seq<string>) {
    exists p :: p in patterns && glob(p, name) == Matches
  }

  /** The elements that satisfy `keep`, in order. */
  function Filter(s: seq<string>, keep: string -> bool): seq<string> {
    if s == [] then []
    else
      Filter(s[..|s| - 1], keep) + (if keep(s[|s| - 1]) then [s[|s| - 1]] else [])
  }

  // -------------------------------------------------------------------------------------
  // The decisions
  // -------------------------------------------------------------------------------------

  function DecideUser(roles: seq<Role>, requested: seq<string>, ttl: int, endpoint: int)
    : Result<UserDecision, Denial>
  {
    var out := Filter(requested, p => p in Allowed(roles));
    if roles == [] then Err(NoRole)
    else if out == [] then Err(EmptyDecision)
    else Ok(UserDecision(out, Min(ttl, MaxCap(roles, endpoint, UserCap)), MergedExtensions(roles)))
  }

  function DecideHost(glob: Glob, roles: seq<Role>, requested: seq<string>, ttl: int, endpoint: int)
    : Result<HostDecision, Denial>
  {
    var patterns := Patterns(roles, HostCap);
    var out := Filter(requested, p => MatchesSome(glob, p, patterns));
    if roles == [] then Err(NoRole)
    else if !WellFormed(glob, patterns) then Err(InvalidPattern)
    else if out == [] then Err(EmptyDecision)
    else Ok(HostDecision(out, Min(ttl, MaxCap(roles, endpoint, HostCap))))
  }

  function DecideX509(glob: Glob, roles: seq<Role>, uri: string, ttl: int, endpoint: int)
    : Result<X509Decision, Denial>
  {
    var patterns := Patterns(roles, X509Cap);
    if roles == [] then Err(NoRole)
    else if !WellFormed(glob, patterns) then Err(InvalidPattern)
    else if !MatchesSome(glob, uri, patterns) then Err(EmptyDecision)
    else Ok(X509Decision(uri, Min(ttl, MaxCap(roles, endpoint, X509Cap))))
  }

  // -------------------------------------------------------------------------------------
  // The loops that compute them
  // -------------------------------------------------------------------------------------

  method TtlCap(roles: seq<Role>, endpoint: int, field: CapField) returns (out: int)
    ensures out == MaxCap(roles, endpoint, field)
    ensures out >= 0 && forall r :: r in roles ==> EffectiveCap(r, endpoint, field) <= out
    ensures out == 0 || exists r :: r in roles && EffectiveCap(r, endpoint, field) == out
  {
    out := 0;
    for i := 0 to |roles|
      invariant out == MaxCap(roles[..i], endpoint, field)
      invariant out >= 0 && forall r :: r in roles[..i] ==> EffectiveCap(r, endpoint, field) <= out
      invariant out == 0 || exists r :: r in roles[..i] && EffectiveCap(r, endpoint, field) == out
    {
      assert roles[..i + 1] == roles[..i] + [roles[i]];
      var eff: int := Seconds(RoleCap(roles[i], field));
      if eff == 0 || eff > endpoint {
        eff := endpoint;
      }
      assert eff == EffectiveCap(roles[i], endpoint, field);
      if eff > out {
        out := eff;
      }
    }
    assert roles[..|roles|] == roles;
  }

  method MatchesAny(glob: Glob, name: string, patterns: seq<string>) returns (ok: bool)
    ensures ok <==> MatchesSome(glob, name, patterns)
  {
    for i := 0 to |patterns|
      invariant forall k :: 0 <= k < i ==> glob(patterns[k], name) != Matches
    {
      if glob(patterns[i], name) == Matches {
        return true;
      }
    }
    ok := false;
  }

  /** Gathers the roles' patterns, stopping at the first that does not parse. */
  method CollectPatterns(glob: Glob, roles: seq<Role>, field: CapField) returns (r: Option<seq<string>>)
    ensures r == if WellFormed(glob, Patterns(roles, field)) then Some(Patterns(roles, field)) else None
  {
    var patterns := [];
    for i := 0 to |roles|
      invariant patterns == Patterns(roles[..i], field) && WellFormed(glob, patterns)
    {
      assert roles[..i + 1][..i] == roles[..i];
      var ps := PatternsOf(roles[i], field);
      for j := 0 to |ps|
        invariant patterns == Patterns(roles[..i], field) + ps[..j] && WellFormed(glob, patterns)
      {
        if glob(ps[j], "") == BadPattern {
          PatternsOfMember(roles, field, i, ps[j]);
          return None;
        }
        patterns := patterns + [ps[j]];
      }
      assert ps[..|ps|] == ps;
    }
    assert roles[..|roles|] == roles;
    r := Some(patterns);
  }

  method EvaluateUserCert(roles: seq<Role>, requested: seq<string>, ttl: int, endpoint: int)
    returns (d: Result<UserDecision, Denial>)
    ensures d == DecideUser(roles, requested, ttl, endpoint)
  {
    if |roles| == 0 {
      return Err(NoRole);
    }
    var allowed: set<string> := {};
    for i := 0 to |roles|
      invariant allowed == Allowed(roles[..i])
    {
      assert roles[..i + 1] == roles[..i] + [roles[i]];
      allowed := allowed + set p | p in roles[i].allowedPrincipals;
    }
    assert roles[..|roles|] == roles;
    ghost var keep := p => p in Allowed(roles);
    var out := [];
    for i := 0 to |requested|
      invariant out == Filter(requested[..i], keep)
    {
      assert requested[..i + 1][..i] == requested[..i];
      if requested[i] in allowed {
        out := out + [requested[i]];
      }
    }
    assert requested[..|requested|] == requested;
    if |out| == 0 {
      return Err(EmptyDecision);
    }
    var cap := TtlCap(roles, endpoint, UserCap);
    var exts: map<string, string> := map[];
    for i := 0 to |roles|
      invariant exts == MergedExtensions(roles[..i])
    {
      assert roles[..i + 1][..i] == roles[..i];
      exts := exts + roles[i].defaultExtensions;
    }
    d := Ok(UserDecision(out, Min(ttl, cap), exts));
  }

  method EvaluateHostCert(glob: Glob, roles: seq<Role>, requested: seq<string>, ttl: int, endpoint: int)
    returns (d: Result<HostDecision, Denial>)
    ensures d == DecideHost(glob, roles, requested, ttl, endpoint)
  {
    if |roles| == 0 {
      return Err(NoRole);
    }
    var collected := CollectPatterns(glob, roles, HostCap);
    if collected.None? {
      return Err(InvalidPattern);
    }
    var patterns := collected.value;
    ghost var keep := p => MatchesSome(glob, p, Patterns(roles, HostCap));
    var out := [];
    for i := 0 to |requested|
      invariant out == Filter(requested[..i], keep)
    {
      assert requested[..i + 1][..i] == requested[..i];
      var ok := MatchesAny(glob, requested[i], patterns);
      if ok {
        out := out + [requested[i]];
      }
    }
    assert requested[..|requested|] == requested;
    if |out| == 0 {
      return Err(EmptyDecision);
    }
    var cap := TtlCap(roles, endpoint, HostCap);
    d := Ok(HostDecision(out, Min(ttl, cap)));
  }

  method EvaluateX509Cert(glob: Glob, roles: seq<Role>, uri: string, ttl: int, endpoint: int)
    returns (d: Result<X509Decision, Denial>)
    ensures d == DecideX509(glob, roles, uri, ttl, endpoint)
  {
    if |roles| == 0 {
      return Err(NoRole);
    }
    var collected := CollectPatterns(glob, roles, X509Cap);
    if collected.None? {
      return Err(InvalidPattern);
    }
    var ok := MatchesAny(glob, uri, collected.value);
    if !ok {
      return Err(EmptyDecision);
    }
    var cap := TtlCap(roles, endpoint, X509Cap);
    d := Ok(X509Decision(uri, Min(ttl, cap)));
  }

  // -------------------------------------------------------------------------------------
  // Union semantics: more groups, never less capability
  // -------------------------------------------------------------------------------------

  predicate IsSubsequence(a: seq<string>, b: seq<string>) {
    if a == [] then true
    else if b == [] then false
    else
      || (a[|a| - 1] == b[|b| - 1] && IsSubsequence(a[..|a| - 1], b[..|b| - 1]))
      || IsSubsequence(a, b[..|b| - 1])
  }

  lemma {:induction false} SubsequenceSelf(a: seq<string>)
    ensures IsSubsequence(a, a)
  {
    if a != [] {
      SubsequenceSelf(a[..|a| - 1]);
    }
  }

  lemma {:induction false} FilterMembers(s: seq<string>, keep: string -> bool)
    ensures forall p :: p in Filter(s, keep) <==> p in s && keep(p)
  {
    if s != [] {
      FilterMembers(s[..|s| - 1], keep);
      assert s == s[..|s| - 1] + [s[|s| - 1]];
    }
  }

  lemma {:induction false} FilterAll(s: seq<string>)
    ensures Filter(s, p => true) == s
  {
    if s != [] {
      FilterAll(s[..|s| - 1]);
    }
  }

  /** A weaker filter keeps a supersequence. */
  lemma {:induction false} FilterWidens(s: seq<string>, f: string -> bool, g: string -> bool)
    requires forall p :: f(p) ==> g(p)
    ensures IsSubsequence(Filter(s, f), Filter(s, g))
  {
    if s != [] {
      var last := s[|s| - 1];
      var a, b := Filter(s[..|s| - 1], f), Filter(s[..|s| - 1], g);
      FilterWidens(s[..|s| - 1], f, g);
      if f(last) {
        assert (a + [last])[..|a|] == a && (b + [last])[..|b|] == b;
      } else {
        assert Filter(s, f) == a;
        assert g(last) ==> (b + [last])[..|b|] == b;
        assert !g(last) ==> Filter(s, g) == b;
      }
    }
  }

  lemma {:induction false} MaxCapBounds(roles: seq<Role>, endpoint: int, field: CapField)
    ensures MaxCap(roles, endpoint, field) >= 0
    ensures forall r :: r in roles ==> EffectiveCap(r, endpoint, field) <= MaxCap(roles, endpoint, field)
    ensures MaxCap(roles, endpoint, field) == 0
         || exists r :: r in roles && EffectiveCap(r, endpoint, field) == MaxCap(roles, endpoint, field)
  {
    if roles != [] {
      MaxCapBounds(roles[..|roles| - 1], endpoint, field);
      assert roles == roles[..|roles| - 1] + [roles[|roles| - 1]];
    }
  }

  lemma {:induction false} MaxCapWidens(few: seq<Role>, many: seq<Role>, endpoint: int, field: CapField)
    requires forall r :: r in few ==> r in many
    ensures MaxCap(few, endpoint, field) <= MaxCap(many, endpoint, field)
  {
    MaxCapBounds(few, endpoint, field);
    MaxCapBounds(many, endpoint, field);
  }

  /** The ceiling a role states: its seconds, the endpoint's when zero or above it. */
  function StatedCap(r: Role, endpoint: int, field: CapField): int {
    var stated := RoleCap(r, field) * SECOND;
    if stated == 0 || stated > endpoint then endpoint else stated
  }

  /** The effective ceiling is the stated one exactly when the product does not wrap, or is too large
      and wraps to zero or to the endpoint's ceiling or more. It exceeds the stated one only for a
      negative number of seconds. */
  lemma CapExact(r: Role, endpoint: int, field: CapField)
    requires 0 < endpoint < TWO_63
    ensures
      var stated, wrapped := RoleCap(r, field) * SECOND, Seconds(RoleCap(r, field));
      EffectiveCap(r, endpoint, field) == StatedCap(r, endpoint, field)
      <==> -TWO_63 <= stated < TWO_63 || (stated >= TWO_63 && (wrapped == 0 || wrapped >= endpoint))
    ensures RoleCap(r, field) >= 0 ==> EffectiveCap(r, endpoint, field) <= StatedCap(r, endpoint, field)
  {
  }

  /** It does happen, both ways: 3600 seconds short of -2^55 and past 2^55 both come to one hour,
      where the one states no time at all and the other no limit below the endpoint's. */
  lemma WrappedCaps(r: Role, endpoint: int)
    requires HOUR < endpoint < TWO_63
    ensures
      var low := r.(maxUserCertTTLSeconds := -0x80_0000_0000_0000 + 3600);
      EffectiveCap(low, endpoint, UserCap) == HOUR && StatedCap(low, endpoint, UserCap) < 0
    ensures
      var high := r.(maxUserCertTTLSeconds := 0x80_0000_0000_0000 + 3600);
      EffectiveCap(high, endpoint, UserCap) == HOUR && StatedCap(high, endpoint, UserCap) == endpoint
  {
  }

  /** With no negative cap, the ceiling over the roles is within what some role states. */
  lemma {:induction false} CapIsStated(roles: seq<Role>, endpoint: int, field: CapField)
    requires roles != [] && 0 < endpoint < TWO_63 && forall r :: r in roles ==> RoleCap(r, field) >= 0
    ensures exists r :: r in roles && MaxCap(roles, endpoint, field) <= StatedCap(r, endpoint, field)
  {
    MaxCapBounds(roles, endpoint, field);
    assert roles[0] in roles;
    CapExact(roles[0], endpoint, field);
    forall r | r in roles ensures EffectiveCap(r, endpoint, field) <= StatedCap(r, endpoint, field) {
      CapExact(r, endpoint, field);
    }
  }

  lemma {:induction false} PatternsMembers(roles: seq<Role>, field: CapField)
    ensures forall p :: p in Patterns(roles, field) <==> exists r :: r in roles && p in PatternsOf(r, field)
  {
    if roles != [] {
      PatternsMembers(roles[..|roles| - 1], field);
      assert roles == roles[..|roles| - 1] + [roles[|roles| - 1]];
    }
  }

  lemma {:induction false} PatternsOfMember(roles: seq<Role>, field: CapField, i: nat, p: string)
    requires i < |roles| && p in PatternsOf(roles[i], field)
    ensures p in Patterns(roles, field)
  {
    PatternsMembers(roles, field);
  }

  lemma {:induction false} ExtensionKeys(roles: seq<Role>)
    ensures forall k :: k in MergedExtensions(roles) <==> exists r :: r in roles && k in r.defaultExtensions
  {
    if roles != [] {
      ExtensionKeys(roles[..|roles| - 1]);
      assert roles == roles[..|roles| - 1] + [roles[|roles| - 1]];
    }
  }

  /** What a caller is granted is always a subsequence of what it asked for. */
  lemma {:induction false} GrantsAreRequested(glob: Glob, roles: seq<Role>, requested: seq<string>, ttl: int, endpoint: int)
    ensures
      var u := DecideUser(roles, requested, ttl, endpoint);
      u.Ok? ==> IsSubsequence(u.value.principals, requested) && u.value.ttl <= ttl
    ensures
      var h := DecideHost(glob, roles, requested, ttl, endpoint);
      h.Ok? ==> IsSubsequence(h.value.principals, requested) && h.value.ttl <= ttl
  {
    FilterAll(requested);
    FilterWidens(requested, p => p in Allowed(roles), p => true);
    FilterWidens(requested, p => MatchesSome(glob, p, Patterns(roles, HostCap)), p => true);
  }

  /** User certificates: adding groups keeps every granted principal (in order), never lowers
      the TTL, never drops an extension key, and never turns an approval into a denial. */
  lemma {:induction false} UserUnion(all: seq<Role>, groups: seq<string>, more: seq<string>,
                  requested: seq<string>, ttl: int, endpoint: int)
    requires forall g :: g in groups ==> g in more
    requires DecideUser(RolesFor(all, groups), requested, ttl, endpoint).Ok?
    ensures
      var d := DecideUser(RolesFor(all, groups), requested, ttl, endpoint).value;
      var w := DecideUser(RolesFor(all, more), requested, ttl, endpoint);
      && w.Ok?
      && IsSubsequence(d.principals, w.value.principals)
      && d.ttl <= w.value.ttl
      && d.extensions.Keys <= w.value.extensions.Keys
  {
    var few, many := RolesFor(all, groups), RolesFor(all, more);
    RolesForMembers(all, groups);
    RolesForMembers(all, more);
    assert few[0] in many;
    FilterWidens(requested, p => p in Allowed(few), p => p in Allowed(many));
    MaxCapWidens(few, many, endpoint, UserCap);
    ExtensionKeys(few);
    ExtensionKeys(many);
  }

  /** The patterns a larger set of groups brings include the smaller set's. */
  lemma {:induction false} PatternsWiden(all: seq<Role>, groups: seq<string>, more: seq<string>, field: CapField)
    requires forall g :: g in groups ==> g in more
    ensures forall p :: p in Patterns(RolesFor(all, groups), field) ==> p in Patterns(RolesFor(all, more), field)
    ensures RolesFor(all, groups) != [] ==> RolesFor(all, more) != []
    ensures forall r :: r in RolesFor(all, groups) ==> r in RolesFor(all, more)
  {
    RolesForMembers(all, groups);
    RolesForMembers(all, more);
    PatternsMembers(RolesFor(all, groups), field);
    PatternsMembers(RolesFor(all, more), field);
    if RolesFor(all, groups) != [] {
      assert RolesFor(all, groups)[0] in RolesFor(all, more);
    }
  }

  /** The roles and patterns of `many` include those of `few`. */
  ghost predicate Widened(few: seq<Role>, many: seq<Role>, field: CapField) {
    && (few != [] ==> many != [])
    && (forall r :: r in few ==> r in many)
    && (forall p :: p in Patterns(few, field) ==> p in Patterns(many, field))
  }

  lemma {:induction false} HostWidens(glob: Glob, few: seq<Role>, many: seq<Role>, requested: seq<string>, ttl: int, endpoint: int)
    requires Widened(few, many, HostCap) && DecideHost(glob, few, requested, ttl, endpoint).Ok?
    ensures
      var d := DecideHost(glob, few, requested, ttl, endpoint).value;
      var w := DecideHost(glob, many, requested, ttl, endpoint);
      && (w.Ok? <==> WellFormed(glob, Patterns(many, HostCap)))
      && (w.Ok? ==> IsSubsequence(d.principals, w.value.principals) && d.ttl <= w.value.ttl)
  {
    FilterWidens(requested, p => MatchesSome(glob, p, Patterns(few, HostCap)),
                 p => MatchesSome(glob, p, Patterns(many, HostCap)));
    MaxCapWidens(few, many, endpoint, HostCap);
  }

  lemma {:induction false} X509Widens(glob: Glob, few: seq<Role>, many: seq<Role>, uri: string, ttl: int, endpoint: int)
    requires Widened(few, many, X509Cap) && DecideX509(glob, few, uri, ttl, endpoint).Ok?
    ensures
      var d := DecideX509(glob, few, uri, ttl, endpoint).value;
      var w := DecideX509(glob, many, uri, ttl, endpoint);
      && (w.Ok? <==> WellFormed(glob, Patterns(many, X509Cap)))
      && (w.Ok? ==> w.value.spiffeURI == uri && d.ttl <= w.value.ttl)
  {
    MaxCapWidens(few, many, endpoint, X509Cap);
  }

  /** Host certificates: the same, and exactly while no role of the larger set holds a pattern
      that does not parse; one such pattern refuses the whole request. */
  lemma {:induction false} HostUnion(glob: Glob, all: seq<Role>, groups: seq<string>, more: seq<string>,
                  requested: seq<string>, ttl: int, endpoint: int)
    requires forall g :: g in groups ==> g in more
    requires DecideHost(glob, RolesFor(all, groups), requested, ttl, endpoint).Ok?
    ensures
      var d := DecideHost(glob, RolesFor(all, groups), requested, ttl, endpoint).value;
      var w := DecideHost(glob, RolesFor(all, more), requested, ttl, endpoint);
      && (w.Ok? <==> WellFormed(glob, Patterns(RolesFor(all, more), HostCap)))
      && (w.Ok? ==> IsSubsequence(d.principals, w.value.principals) && d.ttl <= w.value.ttl)
  {
    PatternsWiden(all, groups, more, HostCap);
    HostWidens(glob, RolesFor(all, groups), RolesFor(all, more), requested, ttl, endpoint);
  }

  /** Workload certificates: the same for the one requested URI. */
  lemma {:induction false} X509Union(glob: Glob, all: seq<Role>, groups: seq<string>, more: seq<string>,
                  uri: string, ttl: int, endpoint: int)
    requires forall g :: g in groups ==> g in more
    requires DecideX509(glob, RolesFor(all, groups), uri, ttl, endpoint).Ok?
    ensures
      var d := DecideX509(glob, RolesFor(all, groups), uri, ttl, endpoint).value;
      var w := DecideX509(glob, RolesFor(all, more), uri, ttl, endpoint);
      && (w.Ok? <==> WellFormed(glob, Patterns(RolesFor(all, more), X509Cap)))
      && (w.Ok? ==> w.value.spiffeURI == uri && d.ttl <= w.value.ttl)
  {
    PatternsWiden(all, groups, more, X509Cap);
    X509Widens(glob, RolesFor(all, groups), RolesFor(all, more), uri, ttl, endpoint);
  }

  /** A glob semantics with one malformed pattern, in which every other pattern matches. */
  function OneBad(pattern: string, name: string): MatchOutcome {
    if pattern == "[" then BadPattern else Matches
  }

  const GOOD := Role("good", "g", [], ["*"], ["*"], 0, 0, 0, map[])
  const BAD := Role("bad", "b", [], ["["], ["["], 0, 0, 0, map[])

  lemma {:induction false} PatternsWithBad(field: CapField)
    requires !field.UserCap?
    ensures GOOD in RolesFor([GOOD, BAD], ["g"]) && BAD in RolesFor([GOOD, BAD], ["g", "b"])
    ensures "*" in Patterns(RolesFor([GOOD, BAD], ["g"]), field) && WellFormed(OneBad, Patterns(RolesFor([GOOD, BAD], ["g"]), field))
    ensures !WellFormed(OneBad, Patterns(RolesFor([GOOD, BAD], ["g", "b"]), field))
  {
    var few, many := RolesFor([GOOD, BAD], ["g"]), RolesFor([GOOD, BAD], ["g", "b"]);
    RolesForMembers([GOOD, BAD], ["g"]);
    RolesForMembers([GOOD, BAD], ["g", "b"]);
    assert [GOOD, BAD][0] == GOOD && [GOOD, BAD][1] == BAD && ["g", "b"][1] == "b" && ["g"][0] == "g";
    PatternsMembers(few, field);
    PatternsMembers(many, field);
    assert PatternsOf(GOOD, field) == ["*"] && PatternsOf(BAD, field) == ["["];
    assert ["*"][0] == "*" && ["["][0] == "[";
    forall p | p in Patterns(few, field) ensures OneBad(p, "") != BadPattern {
      var r :| r in few && p in PatternsOf(r, field);
      assert r == GOOD;
      assert "*"[0] != "["[0];
    }
    assert "[" in Patterns(many, field);
  }

  lemma {:induction false} DecidedByPatterns(glob: Glob, few: seq<Role>, many: seq<Role>, p: string, name: string, ttl: int, endpoint: int)
    requires few != [] && many != [] && glob(p, name) == Matches
    requires forall field :: field != UserCap ==>
      && p in Patterns(few, field) && WellFormed(glob, Patterns(few, field)) && !WellFormed(glob, Patterns(many, field))
    ensures DecideHost(glob, few, [name], ttl, endpoint).Ok?
    ensures DecideHost(glob, many, [name], ttl, endpoint) == Err(InvalidPattern)
    ensures DecideX509(glob, few, name, ttl, endpoint).Ok?
    ensures DecideX509(glob, many, name, ttl, endpoint) == Err(InvalidPattern)
  {
    assert HostCap != UserCap && X509Cap != UserCap;
    var host := Patterns(few, HostCap);
    assert MatchesSome(glob, name, host) && MatchesSome(glob, name, Patterns(few, X509Cap));
    assert Filter([name], q => MatchesSome(glob, q, host)) != [];
  }

  lemma StarMatches(name: string)
    ensures OneBad("*", name) == Matches
  {
    assert "*"[0] != "["[0];
  }

  /** It does happen: a caller granted a host name and a workload URI is refused both on joining a
      group whose role holds a malformed pattern. */
  lemma {:induction false} MalformedRefuses(name: string, ttl: int, endpoint: int)
    ensures DecideHost(OneBad, RolesFor([GOOD, BAD], ["g"]), [name], ttl, endpoint).Ok?
    ensures DecideHost(OneBad, RolesFor([GOOD, BAD], ["g", "b"]), [name], ttl, endpoint) == Err(InvalidPattern)
    ensures DecideX509(OneBad, RolesFor([GOOD, BAD], ["g"]), name, ttl, endpoint).Ok?
    ensures DecideX509(OneBad, RolesFor([GOOD, BAD], ["g", "b"]), name, ttl, endpoint) == Err(InvalidPattern)
  {
    forall field | field != UserCap
      ensures "*" in Patterns(RolesFor([GOOD, BAD], ["g"]), field)
      ensures WellFormed(OneBad, Patterns(RolesFor([GOOD, BAD], ["g"]), field))
      ensures !WellFormed(OneBad, Patterns(RolesFor([GOOD, BAD], ["g", "b"]), field))
    {
      PatternsWithBad(field);
    }
    PatternsWithBad(HostCap);
    StarMatches(name);
    DecidedByPatterns(OneBad, RolesFor([GOOD, BAD], ["g"]), RolesFor([GOOD, BAD], ["g", "b"]), "*", name, ttl, endpoint);
  }
}
