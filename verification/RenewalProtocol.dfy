/** One agent renewing one identity against certd, over every run: lost and refused requests,
    lost replies, failed writes, crashes, restarts, lost files, late, repeated and lost adoption
    acks, and clocks that differ. One sign request is one step of the server. */
module RenewalProtocol {
  import opened Wrappers
  import opened X509Engine
  import opened ActiveCerts
  import opened SignX509
  import opened Agent

  /** `adopts` are the acks the agent has sent that may still arrive; `used` are the serials
      drawn so far, with "" for none. */
  datatype World = World(
    row: Option<ActiveCert>,
    agent: State,
    agentNow: int,
    serverNow: int,
    adopts: set<string>,
    used: set<string>)

  /** One renewal: whether certd admits the request, what it would mint, the store errors it
      meets, whether its reply comes back, and whether the ack is sent. */
  datatype Renewal = Renewal(
    keyFault: KeyFault,
    admitted: bool,
    minted: Result<Certificate, Refusal>,
    faults: Faults,
    delivered: bool,
    crashWaiting: bool,
    path: WritePath,
    ackSent: bool)

  datatype Event =
    | Renew(env: Renewal)
    | DeliverAdopt(serial: string)
    | DropAdopt(serial: string)
    | AgentClock(now: int)
    | ServerClock(now: int)
    | LoseCert
    | Restart(mode: Mode)

  /** The serial the agent would present now. */
  function Claimed(w: World): string {
    ReadCurrentSerial(w.agent.disk.cert, w.agentNow)
  }

  predicate IsLocked(w: World) {
    w.row.Some? && w.row.value.Locked()
  }

  // -------------------------------------------------------------------------------------
  // Runs
  // -------------------------------------------------------------------------------------

  /** Serials drawn are fresh and the agent's clock does not go back. Nothing else is assumed. */
  predicate Enabled(w: World, e: Event) {
    match e
    case Renew(env) => env.minted.Ok? ==> env.minted.value.serial !in w.used
    case DeliverAdopt(serial) => serial in w.adopts
    case AgentClock(now) => w.agentNow <= now
    case _ => true
  }

  /** certd's side of a renewal that presents `serial`; no request goes out when no key could be had. */
  function Answered(w: World, env: Renewal, serial: string): (Option<ActiveCert>, Option<Certificate>) {
    if !env.admitted || KeyForRenewal(w.agent, env.keyFault).2.None? then (w.row, None)
    else
      var (row, reply) := SignStep(w.row, serial, w.serverNow, env.minted, env.faults);
      (row, if reply.Ok? && env.delivered then Some(reply.value) else None)
  }

  function ServerSide(w: World, env: Renewal): (Option<ActiveCert>, Option<Certificate>) {
    Answered(w, env, Claimed(w))
  }

  /** A whole renewal that presents `serial`. */
  function RenewedWith(w: World, env: Renewal, serial: string): World {
    var (row, response) := Answered(w, env, serial);
    var (agent, out) := SignOnce(w.agent, Attempt(env.keyFault, response, env.crashWaiting, env.path));
    w.(row := row,
       agent := agent,
       adopts := if out.Renewed? && response.Some? && env.ackSent then w.adopts + {response.value.serial} else w.adopts,
       used := if env.minted.Ok? then w.used + {env.minted.value.serial} else w.used)
  }

  function Step(w: World, e: Event): World {
    match e
    case Renew(env) => RenewedWith(w, env, Claimed(w))
    case DeliverAdopt(serial) => w.(row := GraceDropped(w.row, serial))
    case DropAdopt(serial) => w.(adopts := w.adopts - {serial})
    case AgentClock(now) => w.(agentNow := now)
    case ServerClock(now) => w.(serverNow := now)
    case LoseCert => w.(agent := w.agent.(disk := w.agent.disk.(cert := Absent)))
    case Restart(mode) => w.(agent := w.agent.(mode := mode, memory := FORGOTTEN))
  }

  predicate ValidRun(w: World, es: seq<Event>)
    decreases |es|
  {
    es != [] ==> Enabled(w, es[0]) && ValidRun(Step(w, es[0]), es[1..])
  }

  function Run(w: World, es: seq<Event>): World
    decreases |es|
  {
    if es == [] then w else Run(Step(w, es[0]), es[1..])
  }

  /** No run from here ever locks the identity. */
  ghost predicate NeverLocks(w: World) {
    forall es :: ValidRun(w, es) ==> !IsLocked(Run(w, es))
  }

  // -------------------------------------------------------------------------------------
  // The invariant
  // -------------------------------------------------------------------------------------

  /** Every serial in sight has been drawn. */
  predicate WellFormedWorld(w: World) {
    && "" in w.used
    && w.adopts <= w.used
    && (w.row.Some? ==> w.row.value.currentSerial in w.used && w.row.value.previousSerial in w.used)
    && (w.agent.disk.cert.Holds? ==> w.agent.disk.cert.content.serial in w.used)
  }

  /** What the agent claims is nothing, the current serial, or the previous one with no ack
      on its way that would drop it; and with no row it claims nothing. */
  predicate Safe(w: World) {
    var claimed := Claimed(w);
    match w.row
    case None => claimed == ""
    case Some(r) =>
      && !r.Locked()
      && (claimed == "" || r.Accepts(claimed))
      && (r.currentSerial in w.adopts && claimed != "" ==> claimed == r.currentSerial)
  }

  /** An attempt changes the certificate file only to what certd returned. */
  lemma CertFileAfter(a: State, env: Attempt)
    ensures
      var after := SignOnce(a, env).0.disk.cert;
      || after == a.disk.cert
      || (env.response.Some? && after.Holds? && after.content.serial == env.response.value.serial
          && after.content.notAfter == env.response.value.notAfter)
    ensures
      SignOnce(a, env).1.Renewed? ==> env.response.Some? && SignOnce(a, env).0.disk.cert.Holds?
                                      && SignOnce(a, env).0.disk.cert.content.serial == env.response.value.serial
  {
  }

  lemma RenewKeepsSafe(w: World, env: Renewal)
    requires WellFormedWorld(w) && Safe(w) && Enabled(w, Renew(env))
    ensures WellFormedWorld(Step(w, Renew(env))) && Safe(Step(w, Renew(env)))
  {
    var (row, response) := ServerSide(w, env);
    CertFileAfter(w.agent, Attempt(env.keyFault, response, env.crashWaiting, env.path));
  }

  lemma StepKeepsSafe(w: World, e: Event)
    requires WellFormedWorld(w) && Safe(w) && Enabled(w, e)
    ensures WellFormedWorld(Step(w, e)) && Safe(Step(w, e))
  {
    if e.Renew? {
      RenewKeepsSafe(w, e.env);
    }
  }

  /** Over every run from a safe state, the serial on disk stays current, previous or unclaimed,
      and the identity is never locked. */
  lemma {:induction false} RunsStaySafe(w: World, es: seq<Event>)
    requires WellFormedWorld(w) && Safe(w) && ValidRun(w, es)
    ensures Safe(Run(w, es)) && !IsLocked(Run(w, es))
    decreases |es|
  {
    if es != [] {
      StepKeepsSafe(w, es[0]);
      RunsStaySafe(Step(w, es[0]), es[1..]);
    }
  }

  // -------------------------------------------------------------------------------------
  // The invariant is exact
  // -------------------------------------------------------------------------------------

  lemma {:induction false} LongestSerial(used: set<string>) returns (n: nat)
    ensures forall s :: s in used ==> |s| <= n
    decreases |used|
  {
    if used == {} {
      n := 0;
    } else {
      var s :| s in used;
      var m := LongestSerial(used - {s});
      n := if |s| > m then |s| else m;
    }
  }

  lemma FreshSerial(used: set<string>) returns (s: string)
    ensures s !in used && s != ""
  {
    var n := LongestSerial(used);
    s := seq(n + 1, i => '0');
  }

  /** A renewal whose reply never arrives. */
  function LostRenewal(minted: Result<Certificate, Refusal>): Event {
    Renew(Renewal(NoKeyFault, true, minted, Faults(false, false, false), false, false, Completes, false))
  }

  /** An agent claiming a serial that an unlocked row does not accept, or claiming one with no
      row at all, is at most two of its own renewals away from the lock. */
  lemma StaleClaimLocks(w: World) returns (es: seq<Event>)
    requires WellFormedWorld(w) && w.agent.mode.RotateKey? && Claimed(w) != ""
    requires w.row.Some? ==> !w.row.value.Locked() && !w.row.value.Accepts(Claimed(w))
    ensures ValidRun(w, es) && IsLocked(Run(w, es))
    ensures |es| <= 2 && forall i :: 0 <= i < |es| ==> es[i].Renew?
  {
    var retry := LostRenewal(Err(NoSerialDrawn));
    if w.row.Some? && w.serverNow <= w.row.value.currentNotAfter {
      es := [retry];
      assert Run(w, es) == Run(Step(w, retry), []);
    } else {
      var serial := FreshSerial(w.used);
      var first := LostRenewal(Ok(Certificate(serial, w.serverNow, w.serverNow, 0, false, Unlimited)));
      es := [first, retry];
      var w1 := Step(w, first);
      assert es[1..] == [retry] && Claimed(w1) == Claimed(w);
      assert Run(w, es) == Run(w1, [retry]) == Run(Step(w1, retry), []);
      assert ValidRun(w1, [retry]);
    }
  }

  /** From an unlocked state that is not safe, some run without a clock moving locks the agent out. */
  lemma UnsafeLocks(w: World) returns (es: seq<Event>)
    requires WellFormedWorld(w) && !IsLocked(w) && !Safe(w)
    ensures ValidRun(w, es) && IsLocked(Run(w, es))
    ensures |es| <= 4 && forall i :: 0 <= i < |es| ==> es[i].Renew? || es[i].DeliverAdopt? || es[i].Restart?
  {
    var restart := Event.Restart(RotateKey);
    var w1 := Step(w, restart);
    if w.row.Some? && w.row.value.Accepts(Claimed(w)) {
      var ack := DeliverAdopt(w.row.value.currentSerial);
      var w2 := Step(w1, ack);
      var rest := StaleClaimLocks(w2);
      es := [restart, ack] + rest;
      assert es[1..] == [ack] + rest && es[1..][1..] == rest;
      assert Run(w, es) == Run(w1, es[1..]) == Run(w2, rest);
    } else {
      var rest := StaleClaimLocks(w1);
      es := [restart] + rest;
      assert es[1..] == rest;
    }
  }

  /** An unlocked agent can never lock itself out if and only if its state is safe. */
  lemma NoSelfLock(w: World)
    requires WellFormedWorld(w) && !IsLocked(w)
    ensures NeverLocks(w) <==> Safe(w)
  {
    if Safe(w) {
      forall es | ValidRun(w, es) ensures !IsLocked(Run(w, es)) {
        RunsStaySafe(w, es);
      }
    } else {
      var es := UnsafeLocks(w);
    }
  }

  /** Once a recorded certificate is on disk with no older grace pending, the guarantee holds:
      right after any successful renewal of an unlocked row. */
  lemma PersistedIsSafe(w: World, env: Renewal)
    requires WellFormedWorld(w) && !IsLocked(w) && Enabled(w, Renew(env))
    requires ServerSide(w, env).1.Some?
    requires SignOnce(w.agent, Attempt(env.keyFault, ServerSide(w, env).1, env.crashWaiting, env.path)).1.Renewed?
    ensures NeverLocks(Step(w, Renew(env)))
  {
    var w1 := Step(w, Renew(env));
    CertFileAfter(w.agent, Attempt(env.keyFault, ServerSide(w, env).1, env.crashWaiting, env.path));
    assert WellFormedWorld(w1) && Safe(w1) && !IsLocked(w1);
    NoSelfLock(w1);
  }

  /** The first enrolment and an operator's clearing of the row are outside the guarantee: with
      no row, an agent that still claims a serial can be locked out by one lost reply. */
  lemma NoRowIsUnsafe(w: World)
    requires WellFormedWorld(w)
    ensures NeverLocks(w.(row := None)) <==> Claimed(w) == ""
  {
    var cleared := w.(row := None);
    NoSelfLock(cleared);
    assert Claimed(cleared) == Claimed(w);
  }

  // -------------------------------------------------------------------------------------
  // A request that arrives twice
  // -------------------------------------------------------------------------------------

  /** certd records a certificate for this renewal. */
  predicate Issues(w: World, env: Renewal) {
    && env.admitted && KeyForRenewal(w.agent, env.keyFault).2.Some?
    && SignStep(w.row, Claimed(w), w.serverNow, env.minted, env.faults).1.Ok?
  }

  /** The event takes `serial` out of the row: the agent is served presenting another serial, or
      the ack of the current certificate drops the grace. */
  predicate Forgets(w: World, e: Event, serial: string) {
    match e
    case Renew(env) => Issues(w, env) && Claimed(w) != serial
    case DeliverAdopt(acked) => w.row.Some? && w.row.value.currentSerial == acked && !IsLocked(w)
    case _ => false
  }

  /** No event of the run takes `serial` out of the row. */
  predicate Remembered(w: World, es: seq<Event>, serial: string)
    decreases |es|
  {
    es != [] ==> !Forgets(w, es[0], serial) && Remembered(Step(w, es[0]), es[1..], serial)
  }

  lemma StepKeepsWellFormed(w: World, e: Event)
    requires WellFormedWorld(w) && Enabled(w, e)
    ensures WellFormedWorld(Step(w, e)) && w.used <= Step(w, e).used
  {
    if e.Renew? {
      CertFileAfter(w.agent, Attempt(e.env.keyFault, ServerSide(w, e.env).1, e.env.crashWaiting, e.env.path));
    }
  }

  /** A row whose current serial is another: `serial` stays accepted until it is forgotten, and
      never comes back. */
  lemma ForgetStep(w: World, e: Event, serial: string)
    requires WellFormedWorld(w) && Enabled(w, e) && serial in w.used && serial != ""
    requires w.row.Some? && w.row.value.currentSerial != serial
    ensures Step(w, e).row.Some? && Step(w, e).row.value.currentSerial != serial
    ensures Step(w, e).row.value.Accepts(serial) <==> w.row.value.Accepts(serial) && !Forgets(w, e, serial)
  {
  }

  lemma {:induction false} ForgottenExactly(w: World, es: seq<Event>, serial: string)
    requires WellFormedWorld(w) && ValidRun(w, es) && serial in w.used && serial != ""
    requires w.row.Some? && w.row.value.currentSerial != serial
    ensures WellFormedWorld(Run(w, es)) && Run(w, es).row.Some?
    ensures Run(w, es).row.value.Accepts(serial) <==> w.row.value.Accepts(serial) && Remembered(w, es, serial)
    decreases |es|
  {
    if es != [] {
      StepKeepsWellFormed(w, es[0]);
      ForgetStep(w, es[0], serial);
      ForgottenExactly(Step(w, es[0]), es[1..], serial);
    }
  }

  /** The world after certd has handled the duplicate of a request that presented `serial`. */
  function Replayed(w: World, serial: string, minted: Result<Certificate, Refusal>): World {
    w.(row := SignStep(w.row, serial, w.serverNow, minted, Faults(false, false, false)).0,
       used := if minted.Ok? then w.used + {minted.value.serial} else w.used)
  }

  /** The renewal is served as a rotation from the serial it presents. */
  predicate Rotates(w: World, env: Renewal) {
    Enabled(w, Renew(env)) && Issues(w, env) && w.row.Some? && w.row.value.Accepts(Claimed(w))
  }

  /** A duplicate of an accepted request, arriving after any run of the agent's own events, locks
      an unlocked identity exactly when the record is valid and the run has forgotten its serial. */
  lemma {:induction false} ReplayLocksExactly(w: World, env: Renewal, es: seq<Event>, minted: Result<Certificate, Refusal>)
    requires WellFormedWorld(w) && Rotates(w, env) && ValidRun(Step(w, Renew(env)), es)
    ensures
      var w1 := Step(w, Renew(env));
      var w2 := Run(w1, es);
      && w2.row.Some?
      && (IsLocked(Replayed(w2, Claimed(w), minted)) <==>
            IsLocked(w2) || (w2.serverNow <= w2.row.value.currentNotAfter && !Remembered(w1, es, Claimed(w))))
  {
    StepKeepsWellFormed(w, Renew(env));
    ForgottenExactly(Step(w, Renew(env)), es, Claimed(w));
  }

  /** And when it leaves an agent that was safe for ever safe: exactly when the agent still claims
      the serial of the duplicate, or claims nothing and the duplicate does not lock. A duplicate
      that is served takes the row away from an agent that has moved on. */
  lemma {:induction false} ReplayHarmlessExactly(w: World, env: Renewal, es: seq<Event>, cert: Certificate)
    requires WellFormedWorld(w) && Safe(w) && Rotates(w, env) && ValidRun(Step(w, Renew(env)), es)
    requires cert.serial !in Run(Step(w, Renew(env)), es).used
    ensures
      var w1 := Step(w, Renew(env));
      var w2 := Run(w1, es);
      && w2.row.Some?
      && (NeverLocks(Replayed(w2, Claimed(w), Ok(cert))) <==>
            || Claimed(w2) == Claimed(w)
            || (Claimed(w2) == "" && (w2.serverNow > w2.row.value.currentNotAfter || Remembered(w1, es, Claimed(w)))))
  {
    var w1 := Step(w, Renew(env));
    var w2 := Run(w1, es);
    var w3 := Replayed(w2, Claimed(w), Ok(cert));
    StepKeepsSafe(w, Renew(env));
    RunsStaySafe(w1, es);
    ForgottenExactly(w1, es, Claimed(w));
    ReplayLocksExactly(w, env, es, Ok(cert));
    assert WellFormedWorld(w3);
    if IsLocked(w3) {
      assert ValidRun(w3, []) && IsLocked(Run(w3, []));
    } else {
      NoSelfLock(w3);
    }
  }

  /** It does happen: replaying an accepted serial past the ack of its successor locks the
      identity. */
  lemma ReplayedRequestLocks(row: ActiveCert, presented: string, now: int, cert: Certificate)
    requires !row.Locked() && row.Accepts(presented)
    requires cert.serial != presented && now <= cert.notAfter
    ensures
      var none := Faults(false, false, false);
      var first := SignStep(Some(row), presented, now, Ok(cert), none);
      var acked := GraceDropped(first.0, cert.serial);
      var again := SignStep(acked, presented, now, Err(NoSerialDrawn), none);
      first.1 == Ok(cert) && again.0.Some? && again.0.value.Locked()
  {
  }
}
