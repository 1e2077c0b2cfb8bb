/** `POST /api/v1/x509/sign-workload`: admission, the renewal guard, minting and the record. */
module SignX509 {
  import opened Wrappers
  import opened Durations
  import opened Roles
  import opened Policy
  import opened Decisions
  import opened X509Engine
  import opened ActiveCerts

  const DEFAULT_TTL: int := HOUR
  const MAX_TTL: int := 24 * HOUR

  /** `uri` is what `url.Parse` makes of `spiffeURI`. */
  datatype Request = Request(
    publicKey: Option<nat>,
    spiffeURI: string,
    uri: Uri,
    ttlSeconds: int64,
    currentSerial: string)

  datatype Faults = Faults(get: bool, lock: bool, upsert: bool)

  /** What a request meets: the issuer in force, the authenticated groups, the two clock
      readings the handler takes, the serial drawn, and the store errors it runs into. */
  datatype Env = Env(
    issuer: Option<Certificate>,
    groups: Option<seq<string>>,
    now: int,
    guardNow: int,
    serial: Option<string>,
    faults: Faults)

  datatype Refusal =
    | NoIssuerConfigured | BadPublicKey | NoSpiffeURI | TTLOverMax | Unauthenticated
    | GroupsRequired | PolicyDenied(denial: Denial) | IssuerNearExpiry
    | StoreUnavailable | AlreadyLocked | NoSerialPresented | CloneSuspected
    | NoSerialDrawn | NotSigned(error: Error) | NotRecorded

  type Reply = Result<Certificate, Refusal>

  /** The role table as the handler sees it: the roles of a set of groups. */
  type Lookup = seq<string> -> seq<Role>

  // -------------------------------------------------------------------------------------
  // Admission: everything before the guard
  // -------------------------------------------------------------------------------------

  /** `resolveTTL`. The product wraps before it is compared with the maximum. */
  function ResolveTTL(seconds: int64, def: int, max: int): Option<int> {
    if seconds <= 0 then Some(def)
    else if Seconds(seconds) > max then None
    else Some(Seconds(seconds))
  }

  /** The TTL that policy and the caps leave for the request, or why it is turned away. */
  function Admit(policyOn: bool, glob: Glob, roles: Lookup, req: Request, env: Env): Result<int, Refusal> {
    var ttl := ResolveTTL(req.ttlSeconds, DEFAULT_TTL, MAX_TTL);
    if env.issuer.None? then Err(NoIssuerConfigured)
    else if req.publicKey.None? then Err(BadPublicKey)
    else if req.spiffeURI == "" then Err(NoSpiffeURI)
    else if ttl.None? then Err(TTLOverMax)
    else if env.groups.None? then Err(Unauthenticated)
    else if policyOn && env.groups.value == [] then Err(GroupsRequired)
    else
      var decided :=
        if policyOn then DecideX509(glob, roles(env.groups.value), req.spiffeURI, ttl.value, MAX_TTL)
        else Ok(X509Decision(req.spiffeURI, ttl.value));
      if decided.Err? then Err(PolicyDenied(decided.error))
      else if Sub(env.issuer.value.notAfter, env.now) < MAX_TTL then Err(IssuerNearExpiry)
      else Ok(decided.value.ttl)
  }

  /** The certificate the engine makes for an admitted request. */
  function Mint(req: Request, env: Env, ttl: int): Result<Certificate, Refusal> {
    if env.serial.None? then Err(NoSerialDrawn)
    else
      var built := Build(Workload(req.uri),
                         Params(req.publicKey, env.serial.value, Some(env.now), env.now + ttl), env.issuer);
      if built.Err? then Err(NotSigned(built.error)) else Ok(built.value)
  }

  // -------------------------------------------------------------------------------------
  // The guard
  // -------------------------------------------------------------------------------------

  datatype Verdict =
    | Proceed(previousSerial: string, previousNotAfter: Option<int>)
    | RefuseLocked
    | RefuseEmpty
    | Escalate

  function Guard(row: Option<ActiveCert>, presented: string, now: int): Verdict {
    if row.None? then Proceed("", None)
    else
      var existing := row.value;
      if existing.Locked() then RefuseLocked
      else if existing.Accepts(presented) then
        Proceed(presented,
                if presented == existing.currentSerial then Some(existing.currentNotAfter)
                else existing.previousNotAfter)
      else if now > existing.currentNotAfter then Proceed("", None)
      else if presented == "" then RefuseEmpty
      else Escalate
  }

  /** One whole request against the identity's row: the row it leaves and the reply. */
  function SignStep(row: Option<ActiveCert>, presented: string, now: int, minted: Result<Certificate, Refusal>, faults: Faults)
    : (Option<ActiveCert>, Reply)
  {
    if faults.get then (row, Err(StoreUnavailable))
    else
      match Guard(row, presented, now)
      case Proceed(previousSerial, previousNotAfter) =>
        if minted.Err? then (row, minted)
        else if faults.upsert then (row, Err(NotRecorded))
        else (Some(Recorded(row, minted.value, previousSerial, previousNotAfter)), minted)
      case RefuseLocked => (row, Err(AlreadyLocked))
      case RefuseEmpty => (row, Err(NoSerialPresented))
      case Escalate => (if faults.lock then row else LockStamped(row, now, presented), Err(CloneSuspected))
  }

  class Server {
    const activeCerts: ActiveCertStore?
    const policyOn: bool
    const glob: Glob
    const roles: Lookup

    constructor (activeCerts: ActiveCertStore?, policyOn: bool, glob: Glob, roles: Lookup)
      ensures this.activeCerts == activeCerts && this.policyOn == policyOn
      ensures this.glob == glob && this.roles == roles
    {
      this.activeCerts := activeCerts;
      this.policyOn := policyOn;
      this.glob := glob;
      this.roles := roles;
    }

    /** The checks before the guard, in the handler's order. */
    method Admission(req: Request, env: Env) returns (r: Result<int, Refusal>)
      ensures r == Admit(policyOn, glob, roles, req, env)
    {
      if env.issuer.None? {
        return Err(NoIssuerConfigured);
      }
      if req.publicKey.None? {
        return Err(BadPublicKey);
      }
      if req.spiffeURI == "" {
        return Err(NoSpiffeURI);
      }
      var resolved := ResolveTTL(req.ttlSeconds, DEFAULT_TTL, MAX_TTL);
      if resolved.None? {
        return Err(TTLOverMax);
      }
      var ttl := resolved.value;
      if env.groups.None? {
        return Err(Unauthenticated);
      }
      if policyOn {
        if |env.groups.value| == 0 {
          return Err(GroupsRequired);
        }
        var decision := EvaluateX509Cert(glob, roles(env.groups.value), req.spiffeURI, ttl, MAX_TTL);
        if decision.Err? {
          return Err(PolicyDenied(decision.error));
        }
        ttl := decision.value.ttl;
      }
      if Sub(env.issuer.value.notAfter, env.now) < MAX_TTL {
        return Err(IssuerNearExpiry);
      }
      r := Ok(ttl);
    }

    /** The guard's read and its branches: what to record as previous, or why to stop. */
    method CheckGuard(store: ActiveCertStore, identity: string, presented: string, now: int, faults: Faults)
      returns (refused: Option<Refusal>, prevSerial: string, prevNotAfter: Option<int>)
      modifies store
      ensures
        var row := RowOf(old(store.rows), identity);
        var verdict := Guard(row, presented, now);
        if faults.get then refused == Some(StoreUnavailable) && store.rows == old(store.rows)
        else if verdict.Proceed? then
          refused == None && verdict == Proceed(prevSerial, prevNotAfter) && store.rows == old(store.rows)
        else
          && refused == Some(match verdict case RefuseLocked => AlreadyLocked
                                           case RefuseEmpty => NoSerialPresented
                                           case _ => CloneSuspected)
          && store.rows == if verdict.Escalate? && !faults.lock
                           then WithRow(old(store.rows), identity, LockStamped(row, now, presented))
                           else old(store.rows)
    {
      refused, prevSerial, prevNotAfter := None, "", None;
      var got := store.Get(identity, faults.get);
      if got.Err? {
        return Some(StoreUnavailable), "", None;
      }
      if got.value.Some? {
        var existing := got.value.value;
        if existing.lockedAt.Some? {
          return Some(AlreadyLocked), "", None;
        }
        if presented != "" && (presented == existing.currentSerial || presented == existing.previousSerial) {
          prevSerial := presented;
          if presented == existing.currentSerial {
            prevNotAfter := Some(existing.currentNotAfter);
          } else {
            prevNotAfter := existing.previousNotAfter;
          }
        } else if now > existing.currentNotAfter {
          // Re-enrolment: nothing valid is recorded, so the chain restarts with no previous.
        } else if presented == "" {
          return Some(NoSerialPresented), "", None;
        } else {
          var locked := store.Lock(identity, presented, now, faults.lock);
          return Some(CloneSuspected), "", None;
        }
      }
    }

    /** The handler. With the guard on, it leaves the identity's row as `SignStep` says and every
        other row alone; without it, nothing is recorded. */
    method HandleSignWorkloadCert(req: Request, env: Env) returns (reply: Reply)
      modifies activeCerts
      ensures
        var admitted := Admit(policyOn, glob, roles, req, env);
        && (admitted.Err? ==> reply == Err(admitted.error)
                              && (activeCerts != null ==> activeCerts.rows == old(activeCerts.rows)))
        && (admitted.Ok? && activeCerts == null ==> reply == Mint(req, env, admitted.value))
        && (admitted.Ok? && activeCerts != null ==>
              var step := SignStep(RowOf(old(activeCerts.rows), req.spiffeURI), req.currentSerial, env.guardNow,
                                   Mint(req, env, admitted.value), env.faults);
              reply == step.1 && activeCerts.rows == WithRow(old(activeCerts.rows), req.spiffeURI, step.0))
      ensures activeCerts != null && Clone(RowOf(old(activeCerts.rows), req.spiffeURI), req.currentSerial, env.guardNow) ==> reply.Err?
      ensures reply.Ok? && policyOn ==> env.groups.Some? && MatchesSpiffe(glob, roles(env.groups.value), req.spiffeURI)
    {
      AdmittedExactly(policyOn, glob, roles, req, env);
      var admitted := Admission(req, env);
      if admitted.Err? {
        return Err(admitted.error);
      }
      var prevSerial := "";
      var prevNotAfter: Option<int> := None;
      if activeCerts != null {
        RowUntouched(activeCerts.rows, req.spiffeURI);
        var refused;
        refused, prevSerial, prevNotAfter :=
          CheckGuard(activeCerts, req.spiffeURI, req.currentSerial, env.guardNow, env.faults);
        if refused.Some? {
          return Err(refused.value);
        }
      }
      var cert := Mint(req, env, admitted.value);
      if cert.Err? {
        return cert;
      }
      if activeCerts != null {
        var recorded := activeCerts.Upsert(req.spiffeURI, cert.value, prevSerial, prevNotAfter, env.faults.upsert);
        if !recorded {
          return Err(NotRecorded);
        }
      }
      reply := cert;
    }
  }

  lemma RowUntouched(t: Table, identity: string)
    ensures WithRow(t, identity, RowOf(t, identity)) == t
  {
    assert identity !in t ==> t - {identity} == t;
  }

  // -------------------------------------------------------------------------------------
  // What a request comes to, column by column
  // -------------------------------------------------------------------------------------

  /** The presented serial is one the row has. */
  predicate Rotation(row: Option<ActiveCert>, presented: string) {
    row.Some? && presented != "" && (presented == row.value.currentSerial || presented == row.value.previousSerial)
  }

  /** An unlocked row whose certificate is valid, and a serial that it does not have. */
  predicate Clone(row: Option<ActiveCert>, presented: string, now: int) {
    && row.Some? && row.value.lockedAt.None? && now <= row.value.currentNotAfter
    && presented != "" && presented != row.value.currentSerial && presented != row.value.previousSerial
  }

  /** A certificate is returned exactly when the store answers, the engine mints it, it is recorded,
      and there is no row, or the row is unlocked and has the presented serial or has expired. So a
      suspected clone is refused even if the lock cannot be written. */
  lemma IssuedExactly(row: Option<ActiveCert>, presented: string, now: int, minted: Result<Certificate, Refusal>, faults: Faults)
    ensures
      var reply := SignStep(row, presented, now, minted, faults).1;
      && (reply.Ok? <==>
            && !faults.get && !faults.upsert && minted.Ok?
            && (row.None? || (row.value.lockedAt.None? && (Rotation(row, presented) || now > row.value.currentNotAfter))))
      && (reply.Ok? ==> reply == minted)
  {
  }

  /** Why a request is refused. */
  lemma RefusedBecause(row: Option<ActiveCert>, presented: string, now: int, minted: Result<Certificate, Refusal>, faults: Faults)
    ensures
      var reply := SignStep(row, presented, now, minted, faults).1;
      var locked := row.Some? && row.value.lockedAt.Some?;
      var valid := row.Some? && now <= row.value.currentNotAfter;
      reply.Err? ==>
        && (faults.get ==> reply == Err(StoreUnavailable))
        && (!faults.get && locked ==> reply == Err(AlreadyLocked))
        && (!faults.get && Clone(row, presented, now) ==> reply == Err(CloneSuspected))
        && (!faults.get && !locked && valid && presented == "" ==> reply == Err(NoSerialPresented))
        && (!faults.get && !locked && (!valid || Rotation(row, presented)) ==>
              if minted.Err? then reply == minted else faults.upsert && reply == Err(NotRecorded))
  {
  }

  /** The columns an issuance leaves: the new certificate is current; the serial rotated from, with
      its expiry, is previous, and there is none after an enrolment; the row is not locked. */
  lemma RowAfterIssuance(row: Option<ActiveCert>, presented: string, now: int, minted: Result<Certificate, Refusal>, faults: Faults)
    requires SignStep(row, presented, now, minted, faults).1.Ok?
    ensures
      var after := SignStep(row, presented, now, minted, faults).0;
      && after.Some? && minted.Ok?
      && after.value.currentSerial == minted.value.serial && after.value.currentNotAfter == minted.value.notAfter
      && after.value.lockedAt == None
      && (row.Some? ==> after.value.lockedSerial == row.value.lockedSerial)
      && (Rotation(row, presented) ==>
            && after.value.previousSerial == presented
            && (presented == row.value.currentSerial ==> after.value.previousNotAfter == Some(row.value.currentNotAfter))
            && (presented != row.value.currentSerial ==> after.value.previousNotAfter == row.value.previousNotAfter))
      && (!Rotation(row, presented) ==> after.value.previousSerial == "" && after.value.previousNotAfter == None)
  {
  }

  /** A refusal leaves the row as it was, except that a suspected clone, if the lock can be written,
      stamps it with the time and the serial presented, and nothing else. */
  lemma RowAfterRefusal(row: Option<ActiveCert>, presented: string, now: int, minted: Result<Certificate, Refusal>, faults: Faults)
    requires SignStep(row, presented, now, minted, faults).1.Err?
    ensures
      var after := SignStep(row, presented, now, minted, faults).0;
      if Clone(row, presented, now) && !faults.get && !faults.lock then
        && after.Some?
        && after.value.lockedAt == Some(now) && after.value.lockedSerial == presented
        && after.value.currentSerial == row.value.currentSerial && after.value.currentNotAfter == row.value.currentNotAfter
        && after.value.previousSerial == row.value.previousSerial && after.value.previousNotAfter == row.value.previousNotAfter
      else after == row
  {
  }

  // -------------------------------------------------------------------------------------
  // Who is admitted
  // -------------------------------------------------------------------------------------

  /** What every admission needs, with or without policy. */
  predicate Presentable(req: Request, env: Env) {
    && env.issuer.Some? && req.publicKey.Some? && req.spiffeURI != "" && env.groups.Some?
    && (req.ttlSeconds > 0 ==> Seconds(req.ttlSeconds) <= 24 * HOUR)
    && env.issuer.value.notAfter - env.now >= 24 * HOUR
  }

  /** The TTL asked for: an hour when none is. */
  function Asked(req: Request): int {
    if req.ttlSeconds > 0 then Seconds(req.ttlSeconds) else HOUR
  }

  /** With policy on, a request is admitted exactly when it is presentable, names groups, those have
      roles, every SPIFFE pattern of the roles parses and one matches the URI; its TTL is then the
      smaller of the one asked and the roles' largest X.509 cap. Without policy, being presentable
      is enough, and the TTL is the one asked. */
  lemma {:induction false} AdmittedExactly(policyOn: bool, glob: Glob, roles: Lookup, req: Request, env: Env)
    ensures
      var admitted := Admit(policyOn, glob, roles, req, env);
      if policyOn then
        && (admitted.Ok? <==>
              && Presentable(req, env) && env.groups.value != [] && roles(env.groups.value) != []
              && SpiffePatternsParse(glob, roles(env.groups.value))
              && MatchesSpiffe(glob, roles(env.groups.value), req.spiffeURI))
        && (admitted.Ok? ==> CappedBy(admitted.value, Asked(req), X509Seconds(roles(env.groups.value)), 24 * HOUR))
      else
        && (admitted.Ok? <==> Presentable(req, env))
        && (admitted.Ok? ==> admitted.value == Asked(req))
  {
    if policyOn && env.groups.Some? {
      X509Exact(glob, roles(env.groups.value), req.spiffeURI, Asked(req), 24 * HOUR);
    }
  }

  /** Each refusal names something that is wrong. */
  lemma {:induction false} DeniedBecause(policyOn: bool, glob: Glob, roles: Lookup, req: Request, env: Env)
    requires Admit(policyOn, glob, roles, req, env).Err?
    ensures
      var rs := if env.groups.Some? then roles(env.groups.value) else [];
      match Admit(policyOn, glob, roles, req, env).error
      case NoIssuerConfigured => env.issuer.None?
      case BadPublicKey => req.publicKey.None?
      case NoSpiffeURI => req.spiffeURI == ""
      case TTLOverMax => req.ttlSeconds > 0 && Seconds(req.ttlSeconds) > 24 * HOUR
      case Unauthenticated => env.groups.None?
      case GroupsRequired => policyOn && env.groups == Some([])
      case PolicyDenied(NoRole) => policyOn && rs == []
      case PolicyDenied(InvalidPattern) => policyOn && !SpiffePatternsParse(glob, rs)
      case PolicyDenied(EmptyDecision) => policyOn && !MatchesSpiffe(glob, rs, req.spiffeURI)
      case IssuerNearExpiry => env.issuer.Some? && env.issuer.value.notAfter - env.now < 24 * HOUR
      case _ => false
  {
    if policyOn && env.groups.Some? {
      X509Exact(glob, roles(env.groups.value), req.spiffeURI, Asked(req), 24 * HOUR);
    }
  }

  /** What is minted: the key asked to be certified, the serial drawn, a leaf, from now on. */
  lemma MintedExactly(req: Request, env: Env, ttl: int)
    ensures
      var minted := Mint(req, env, ttl);
      && (minted.Ok? <==>
            && env.serial.Some? && env.serial.value != "" && req.publicKey.Some?
            && req.uri.Parsed? && req.uri.spiffeScheme && req.uri.hasHost
            && env.issuer.Some? && env.issuer.value.isCA && 0 < ttl && env.now < env.issuer.value.notAfter)
      && (minted.Ok? ==>
            && minted.value.publicKey == req.publicKey.value && minted.value.serial == env.serial.value
            && !minted.value.isCA && minted.value.notBefore == Truncate(env.now)
            && minted.value.notAfter == Truncate(if env.now + ttl < env.issuer.value.notAfter then env.now + ttl else env.issuer.value.notAfter))
  {
  }

  // -------------------------------------------------------------------------------------
  // Validity arithmetic
  // -------------------------------------------------------------------------------------

  /** Whatever the request and the roles ask, an admitted TTL is at most the endpoint maximum
      and the issuer outlives it. It can still be zero or negative: the wrapped product is only
      compared with the maximum. */
  lemma AdmittedTTL(policyOn: bool, glob: Glob, roles: Lookup, req: Request, env: Env)
    ensures
      var admitted := Admit(policyOn, glob, roles, req, env);
      admitted.Ok? ==> admitted.value <= MAX_TTL && env.issuer.Some? && env.now + MAX_TTL <= env.issuer.value.notAfter
  {
  }

  /** For every 64-bit `ttl_seconds` and every 64-bit role cap: a certificate minted for an
      admitted request has a template window that is the decided TTL exactly (the clamp to the
      issuer never fires), positive and at most the endpoint maximum; on the certificate that
      window is cut to whole seconds, so it is exact for a whole-second TTL and empty exactly
      when the TTL does not reach the next whole second. */
  lemma IssuedWindow(policyOn: bool, glob: Glob, roles: Lookup, req: Request, env: Env)
    requires Admit(policyOn, glob, roles, req, env).Ok?
    requires Mint(req, env, Admit(policyOn, glob, roles, req, env).value).Ok?
    ensures
      var ttl := Admit(policyOn, glob, roles, req, env).value;
      var tmpl := Template(Workload(req.uri), Params(req.publicKey, env.serial.value, Some(env.now), env.now + ttl));
      var cert := Mint(req, env, ttl).value;
      && 0 < ttl <= MAX_TTL
      && Clamp(tmpl, env.issuer.value) == tmpl
      && cert == Encoded(tmpl)
      && 0 <= cert.notAfter - cert.notBefore <= MAX_TTL
      && (ttl % SECOND == 0 ==> cert.notAfter - cert.notBefore == ttl)
      && (cert.notAfter == cert.notBefore <==> env.now % SECOND + ttl < SECOND)
  {
    AdmittedTTL(policyOn, glob, roles, req, env);
    TruncatedWindow(env.now, Admit(policyOn, glob, roles, req, env).value, 24 * 3600);
  }

  /** The TTL an honest reading of `resolveTTL` promises: the asked seconds, or a refusal above
      the maximum. */
  function PromisedTTL(seconds: int64, def: int, max: int): Option<int> {
    if seconds <= 0 then Some(def)
    else if seconds * SECOND > max then None
    else Some(seconds * SECOND)
  }

  /** `resolveTTL` keeps that promise exactly when the request is within the maximum or its
      wrapped product still exceeds it; every request below 2^63 nanoseconds is such. */
  lemma ResolveTTLExact(seconds: int64, def: int, max: int)
    requires 0 < max < TWO_63
    ensures ResolveTTL(seconds, def, max) == PromisedTTL(seconds, def, max)
            <==> seconds * SECOND <= max || Seconds(seconds) > max
    ensures seconds * SECOND < TWO_63 ==> ResolveTTL(seconds, def, max) == PromisedTTL(seconds, def, max)
  {
  }

  /** Asking for 2^55 + 3600 seconds is granted as one hour, where a refusal is promised. */
  lemma OverlongRequestGranted()
    ensures ResolveTTL(0x80_0000_0000_0000 + 3600, DEFAULT_TTL, MAX_TTL) == Some(HOUR)
    ensures PromisedTTL(0x80_0000_0000_0000 + 3600, DEFAULT_TTL, MAX_TTL) == None
  {
  }
}
