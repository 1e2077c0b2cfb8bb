/** The SSH endpoints' validity windows: the same TTL resolution and caps, cut to Unix seconds. */
module SignSSH {
  import opened Wrappers
  import opened Durations
  import opened Roles
  import opened Policy
  import opened Decisions
  import SignX509

  datatype Kind = User | Host

  function DefaultTTL(kind: Kind): int {
    if kind.User? then HOUR else 7 * 24 * HOUR
  }

  function MaxTTLSeconds(kind: Kind): int {
    if kind.User? then 24 * 3600 else 30 * 24 * 3600
  }

  function MaxTTL(kind: Kind): int {
    MaxTTLSeconds(kind) * SECOND
  }

  /** The TTL an SSH sign request ends with, or `None` when it is refused before signing. */
  function DecidedTTL(kind: Kind, policyOn: bool, glob: Glob, roles: seq<Role>, principals: seq<string>, seconds: int64)
    : Option<int>
  {
    var ttl := SignX509.ResolveTTL(seconds, DefaultTTL(kind), MaxTTL(kind));
    if ttl.None? || !policyOn then ttl
    else if kind.User? then
      var d := DecideUser(roles, principals, ttl.value, MaxTTL(kind));
      if d.Ok? then Some(d.value.ttl) else None
    else
      var d := DecideHost(glob, roles, principals, ttl.value, MaxTTL(kind));
      if d.Ok? then Some(d.value.ttl) else None
  }

  /** `validateCommon`'s window test and `signCert`'s Unix seconds. */
  function Window(now: int, ttl: int): Option<(int, int)> {
    if now + ttl <= now then None
    else Some((now / SECOND, (now + ttl) / SECOND))
  }

  /** For every 64-bit `ttl_seconds`, any roles and either endpoint, a certificate that is signed
      has a decided TTL that is positive and within the endpoint maximum; its window in seconds
      never exceeds that maximum, is exact on whole seconds, and is empty exactly when the TTL
      does not reach the next whole second. */
  lemma SSHWindow(kind: Kind, policyOn: bool, glob: Glob, roles: seq<Role>, principals: seq<string>,
                  seconds: int64, now: int)
    requires DecidedTTL(kind, policyOn, glob, roles, principals, seconds).Some?
    requires Window(now, DecidedTTL(kind, policyOn, glob, roles, principals, seconds).value).Some?
    ensures
      var ttl := DecidedTTL(kind, policyOn, glob, roles, principals, seconds).value;
      var (after, before) := Window(now, ttl).value;
      && 0 < ttl <= MaxTTL(kind)
      && 0 <= before - after <= MaxTTLSeconds(kind)
      && (ttl % SECOND == 0 ==> (before - after) * SECOND == ttl)
      && (before == after <==> now % SECOND + ttl < SECOND)
      && after * SECOND <= now < (after + 1) * SECOND && before * SECOND <= now + ttl < (before + 1) * SECOND
  {
    TruncatedWindow(now, DecidedTTL(kind, policyOn, glob, roles, principals, seconds).value, MaxTTLSeconds(kind));
  }

  /** What a user request comes to: the seconds asked, or an hour, refused above a day; with policy
      on, granted on the roles' principals and capped by their user caps. */
  lemma {:induction false} UserDecidedExactly(policyOn: bool, glob: Glob, roles: seq<Role>, principals: seq<string>, seconds: int64)
    ensures
      var decided := DecidedTTL(User, policyOn, glob, roles, principals, seconds);
      var asked := if seconds > 0 then Seconds(seconds) else HOUR;
      && (decided.Some? <==>
            && (seconds > 0 ==> asked <= 24 * HOUR)
            && (policyOn ==> roles != [] && SomeGranted(principals, AllowedNames(roles))))
      && (decided.Some? && !policyOn ==> decided.value == asked)
      && (decided.Some? && policyOn ==> CappedBy(decided.value, asked, UserSeconds(roles), 24 * HOUR))
  {
    var ttl := SignX509.ResolveTTL(seconds, DefaultTTL(User), MaxTTL(User));
    if policyOn && ttl.Some? {
      UserExact(roles, principals, ttl.value, MaxTTL(User));
    }
  }

  /** What a host request comes to: the seconds asked, or a week, refused above thirty days; with
      policy on, granted on the roles' host patterns and capped by their host caps. */
  lemma {:induction false} HostDecidedExactly(policyOn: bool, glob: Glob, roles: seq<Role>, principals: seq<string>, seconds: int64)
    ensures
      var decided := DecidedTTL(Host, policyOn, glob, roles, principals, seconds);
      var asked := if seconds > 0 then Seconds(seconds) else 168 * HOUR;
      && (decided.Some? <==>
            && (seconds > 0 ==> asked <= 720 * HOUR)
            && (policyOn ==> roles != [] && HostPatternsParse(glob, roles) && SomeGranted(principals, HostNames(glob, roles))))
      && (decided.Some? && !policyOn ==> decided.value == asked)
      && (decided.Some? && policyOn ==> CappedBy(decided.value, asked, HostSeconds(roles), 720 * HOUR))
  {
    var ttl := SignX509.ResolveTTL(seconds, DefaultTTL(Host), MaxTTL(Host));
    if policyOn && ttl.Some? {
      HostExact(glob, roles, principals, ttl.value, MaxTTL(Host));
    }
  }

  /** The empty window does happen: this many seconds wrap to a TTL of 512 nanoseconds. */
  lemma EmptyWindowSigned(glob: Glob, roles: seq<Role>, principals: seq<string>)
    ensures DecidedTTL(User, false, glob, roles, principals, 20211507185753197) == Some(512)
    ensures Window(0, 512) == Some((0, 0))
  {
    assert 20211507185753197 * SECOND == 1095668 * TWO_64 + 512;
  }
}
