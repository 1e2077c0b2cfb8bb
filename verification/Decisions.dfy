/** What each policy decision means, read off the roles' own fields. */
module Decisions {
  import opened Wrappers
  import opened Durations
  import opened Roles
  import opened Policy

  // -------------------------------------------------------------------------------------
  // The TTL
  // -------------------------------------------------------------------------------------

  /** A cap of so many seconds, as a duration: none stated, or one above the endpoint's, is the
      endpoint's. */
  function CapFor(seconds: int64, endpoint: int): int {
    if Seconds(seconds) != 0 && Seconds(seconds) <= endpoint then Seconds(seconds) else endpoint
  }

  function UserSeconds(roles: seq<Role>): seq<int64> {
    seq(|roles|, i requires 0 <= i < |roles| => roles[i].maxUserCertTTLSeconds)
  }

  function HostSeconds(roles: seq<Role>): seq<int64> {
    seq(|roles|, i requires 0 <= i < |roles| => roles[i].maxHostCertTTLSeconds)
  }

  function X509Seconds(roles: seq<Role>): seq<int64> {
    seq(|roles|, i requires 0 <= i < |roles| => roles[i].maxX509CertTTLSeconds)
  }

  /** `cap` is the largest of the caps stated in seconds, or zero if none is positive. */
  predicate LargestCap(cap: int, seconds: seq<int64>, endpoint: int) {
    && 0 <= cap
    && (forall i :: 0 <= i < |seconds| ==> CapFor(seconds[i], endpoint) <= cap)
    && (cap == 0 || exists i :: 0 <= i < |seconds| && CapFor(seconds[i], endpoint) == cap)
  }

  /** `out` is the smaller of what was asked and the largest cap. */
  ghost predicate CappedBy(out: int, ttl: int, seconds: seq<int64>, endpoint: int) {
    exists cap :: LargestCap(cap, seconds, endpoint) && out == if ttl < cap then ttl else cap
  }

  lemma {:induction false} CapIsLargest(roles: seq<Role>, endpoint: int, field: CapField, seconds: seq<int64>)
    requires |seconds| == |roles| && forall i :: 0 <= i < |roles| ==> EffectiveCap(roles[i], endpoint, field) == CapFor(seconds[i], endpoint)
    ensures LargestCap(MaxCap(roles, endpoint, field), seconds, endpoint)
  {
    MaxCapBounds(roles, endpoint, field);
    forall i | 0 <= i < |seconds| ensures CapFor(seconds[i], endpoint) <= MaxCap(roles, endpoint, field) {
      assert roles[i] in roles;
    }
  }

  lemma {:induction false} CapsByField(roles: seq<Role>, endpoint: int)
    ensures LargestCap(MaxCap(roles, endpoint, UserCap), UserSeconds(roles), endpoint)
    ensures LargestCap(MaxCap(roles, endpoint, HostCap), HostSeconds(roles), endpoint)
    ensures LargestCap(MaxCap(roles, endpoint, X509Cap), X509Seconds(roles), endpoint)
  {
    CapIsLargest(roles, endpoint, UserCap, UserSeconds(roles));
    CapIsLargest(roles, endpoint, HostCap, HostSeconds(roles));
    CapIsLargest(roles, endpoint, X509Cap, X509Seconds(roles));
  }

  // -------------------------------------------------------------------------------------
  // Names granted
  // -------------------------------------------------------------------------------------

  /** `out` is what was asked, in order and as often, without the names that are not granted. */
  ghost predicate KeepsExactly(out: seq<string>, asked: seq<string>, granted: iset<string>) {
    && IsSubsequence(out, asked)
    && forall n :: multiset(out)[n] == if n in granted then multiset(asked)[n] else 0
  }

  ghost predicate SomeGranted(asked: seq<string>, granted: iset<string>) {
    exists n :: n in asked && n in granted
  }

  lemma {:induction false} FilterCounts(s: seq<string>, keep: string -> bool, n: string)
    ensures multiset(Filter(s, keep))[n] == if keep(n) then multiset(s)[n] else 0
  {
    if s != [] {
      FilterCounts(s[..|s| - 1], keep, n);
      assert s == s[..|s| - 1] + [s[|s| - 1]];
    }
  }

  lemma {:induction false} FilterKeeps(s: seq<string>, keep: string -> bool, granted: iset<string>)
    requires forall n :: keep(n) <==> n in granted
    ensures KeepsExactly(Filter(s, keep), s, granted)
    ensures Filter(s, keep) != [] <==> SomeGranted(s, granted)
  {
    forall n ensures multiset(Filter(s, keep))[n] == if n in granted then multiset(s)[n] else 0 {
      FilterCounts(s, keep, n);
    }
    FilterAll(s);
    FilterWidens(s, keep, p => true);
    FilterMembers(s, keep);
    if Filter(s, keep) != [] {
      assert Filter(s, keep)[0] in Filter(s, keep);
    }
  }

  // -------------------------------------------------------------------------------------
  // User certificates
  // -------------------------------------------------------------------------------------

  /** The value that a key ends with: that of the last role that sets it. */
  predicate LastSets(roles: seq<Role>, i: nat, key: string, value: string) {
    && i < |roles| && key in roles[i].defaultExtensions && roles[i].defaultExtensions[key] == value
    && forall j :: i < j < |roles| ==> key !in roles[j].defaultExtensions
  }

  lemma {:induction false} MergedLast(roles: seq<Role>, key: string) returns (i: nat)
    requires key in MergedExtensions(roles)
    ensures LastSets(roles, i, key, MergedExtensions(roles)[key])
  {
    var front, last := roles[..|roles| - 1], roles[|roles| - 1];
    if key in last.defaultExtensions {
      i := |roles| - 1;
    } else {
      i := MergedLast(front, key);
    }
  }

  predicate Allows(roles: seq<Role>, n: string) {
    exists r :: r in roles && n in r.allowedPrincipals
  }

  /** The principals the roles allow. */
  ghost function AllowedNames(roles: seq<Role>): iset<string> {
    iset n | Allows(roles, n)
  }

  /** A user request is granted exactly when some role matches and some requested principal is
      allowed by one; it then has the allowed principals and no others, the smaller of the asked
      TTL and the largest user cap, and for each extension the value of the last role that sets it. */
  lemma {:induction false} UserExact(roles: seq<Role>, requested: seq<string>, ttl: int, endpoint: int)
    ensures
      var d := DecideUser(roles, requested, ttl, endpoint);
      && (d.Ok? <==> roles != [] && SomeGranted(requested, AllowedNames(roles)))
      && (d.Err? ==> d.error == if roles == [] then NoRole else EmptyDecision)
      && (d.Ok? ==>
            && KeepsExactly(d.value.principals, requested, AllowedNames(roles))
            && CappedBy(d.value.ttl, ttl, UserSeconds(roles), endpoint)
            && (forall k :: k in d.value.extensions <==> exists r :: r in roles && k in r.defaultExtensions)
            && (forall k :: k in d.value.extensions ==> exists i: nat :: LastSets(roles, i, k, d.value.extensions[k])))
  {
    FilterKeeps(requested, p => p in Allowed(roles), AllowedNames(roles));
    CapsByField(roles, endpoint);
    ExtensionKeys(roles);
    forall k | k in MergedExtensions(roles)
      ensures exists i: nat :: LastSets(roles, i, k, MergedExtensions(roles)[k])
    {
      var i := MergedLast(roles, k);
    }
  }

  // -------------------------------------------------------------------------------------
  // Host and workload certificates
  // -------------------------------------------------------------------------------------

  predicate HostPatternsParse(glob: Glob, roles: seq<Role>) {
    forall r, p :: r in roles && p in r.hostPatterns ==> glob(p, "") != BadPattern
  }

  predicate MatchesHost(glob: Glob, roles: seq<Role>, n: string) {
    exists r, p :: r in roles && p in r.hostPatterns && glob(p, n) == Matches
  }

  /** The host names the roles' patterns match. */
  ghost function HostNames(glob: Glob, roles: seq<Role>): iset<string> {
    iset n | MatchesHost(glob, roles, n)
  }

  predicate SpiffePatternsParse(glob: Glob, roles: seq<Role>) {
    forall r, p :: r in roles && p in r.spiffePatterns ==> glob(p, "") != BadPattern
  }

  predicate MatchesSpiffe(glob: Glob, roles: seq<Role>, uri: string) {
    exists r, p :: r in roles && p in r.spiffePatterns && glob(p, uri) == Matches
  }

  lemma {:induction false} HostPatternsMean(glob: Glob, roles: seq<Role>)
    ensures WellFormed(glob, Patterns(roles, HostCap)) <==> HostPatternsParse(glob, roles)
    ensures forall n :: MatchesSome(glob, n, Patterns(roles, HostCap)) <==> MatchesHost(glob, roles, n)
  {
    PatternsMembers(roles, HostCap);
    forall n ensures MatchesSome(glob, n, Patterns(roles, HostCap)) <==> MatchesHost(glob, roles, n) {
      if MatchesHost(glob, roles, n) {
        var r, p :| r in roles && p in r.hostPatterns && glob(p, n) == Matches;
        assert p in PatternsOf(r, HostCap);
      }
    }
    if HostPatternsParse(glob, roles) {
      forall p | p in Patterns(roles, HostCap) ensures glob(p, "") != BadPattern {
        var r :| r in roles && p in PatternsOf(r, HostCap);
      }
    }
    if WellFormed(glob, Patterns(roles, HostCap)) {
      forall r, p | r in roles && p in r.hostPatterns ensures glob(p, "") != BadPattern {
        assert p in PatternsOf(r, HostCap);
      }
    }
  }

  lemma {:induction false} SpiffePatternsMean(glob: Glob, roles: seq<Role>, uri: string)
    ensures WellFormed(glob, Patterns(roles, X509Cap)) <==> SpiffePatternsParse(glob, roles)
    ensures MatchesSome(glob, uri, Patterns(roles, X509Cap)) <==> MatchesSpiffe(glob, roles, uri)
  {
    PatternsMembers(roles, X509Cap);
    if MatchesSpiffe(glob, roles, uri) {
      var r, p :| r in roles && p in r.spiffePatterns && glob(p, uri) == Matches;
      assert p in PatternsOf(r, X509Cap);
    }
    if SpiffePatternsParse(glob, roles) {
      forall p | p in Patterns(roles, X509Cap) ensures glob(p, "") != BadPattern {
        var r :| r in roles && p in PatternsOf(r, X509Cap);
      }
    }
    if WellFormed(glob, Patterns(roles, X509Cap)) {
      forall r, p | r in roles && p in r.spiffePatterns ensures glob(p, "") != BadPattern {
        assert p in PatternsOf(r, X509Cap);
      }
    }
  }

  /** A host request is granted exactly when some role matches, every host pattern of the roles
      parses and one matches a requested name; it then has the matched names and no others, and the
      smaller of the asked TTL and the largest host cap. */
  lemma {:induction false} HostExact(glob: Glob, roles: seq<Role>, requested: seq<string>, ttl: int, endpoint: int)
    ensures
      var d := DecideHost(glob, roles, requested, ttl, endpoint);
      && (d.Ok? <==> roles != [] && HostPatternsParse(glob, roles) && SomeGranted(requested, HostNames(glob, roles)))
      && (d.Err? ==> d.error == if roles == [] then NoRole else if !HostPatternsParse(glob, roles) then InvalidPattern else EmptyDecision)
      && (d.Ok? ==>
            && KeepsExactly(d.value.principals, requested, HostNames(glob, roles))
            && CappedBy(d.value.ttl, ttl, HostSeconds(roles), endpoint))
  {
    HostPatternsMean(glob, roles);
    FilterKeeps(requested, p => MatchesSome(glob, p, Patterns(roles, HostCap)), HostNames(glob, roles));
    CapsByField(roles, endpoint);
  }

  /** A workload request is granted exactly when some role matches, every SPIFFE pattern of the roles
      parses and one matches the URI; it then has that URI, and the smaller of the asked TTL and the
      largest X.509 cap. */
  lemma {:induction false} X509Exact(glob: Glob, roles: seq<Role>, uri: string, ttl: int, endpoint: int)
    ensures
      var d := DecideX509(glob, roles, uri, ttl, endpoint);
      && (d.Ok? <==> roles != [] && SpiffePatternsParse(glob, roles) && MatchesSpiffe(glob, roles, uri))
      && (d.Err? ==> d.error == if roles == [] then NoRole else if !SpiffePatternsParse(glob, roles) then InvalidPattern else EmptyDecision)
      && (d.Ok? ==> d.value.spiffeURI == uri && CappedBy(d.value.ttl, ttl, X509Seconds(roles), endpoint))
  {
    SpiffePatternsMean(glob, roles, uri);
    CapsByField(roles, endpoint);
  }
}
