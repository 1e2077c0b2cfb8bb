/** An attempt that cannot read the certificate file it has presents no serial for once, as if there
    were none: when that endangers an agent that otherwise never locks itself out. */
module BlindReads {
  import opened Wrappers
  import opened X509Engine
  import opened ActiveCerts
  import opened SignX509
  import opened Agent
  import opened RenewalProtocol

  /** An event of the plain protocol, or a renewal whose read of the certificate file failed. */
  datatype Act = Plain(e: Event) | Blind(env: Renewal)

  predicate ActEnabled(w: World, a: Act) {
    match a
    case Plain(e) => Enabled(w, e)
    case Blind(env) => Enabled(w, Renew(env))
  }

  function ActStep(w: World, a: Act): World {
    match a
    case Plain(e) => Step(w, e)
    case Blind(env) => RenewedWith(w, env, "")
  }

  /** The record has not expired by certd's clock while the agent claims a serial. */
  predicate ClockOk(w: World) {
    Claimed(w) != "" && w.row.Some? ==> w.serverNow <= w.row.value.currentNotAfter
  }

  // -------------------------------------------------------------------------------------
  // One blind attempt
  // -------------------------------------------------------------------------------------

  lemma BlindKeepsSafe(w: World, env: Renewal)
    requires WellFormedWorld(w) && Safe(w) && Enabled(w, Renew(env)) && ClockOk(w)
    ensures WellFormedWorld(RenewedWith(w, env, "")) && Safe(RenewedWith(w, env, ""))
  {
    if Claimed(w) == "" {
      RenewKeepsSafe(w, env);
    } else {
      CertFileAfter(w.agent, Attempt(env.keyFault, Answered(w, env, "").1, env.crashWaiting, env.path));
    }
  }

  /** With the record expired by certd's clock while the agent still claims a serial, a blind attempt
      whose reply is lost puts a stranger's serial in the row. */
  lemma BlindBreaks(w: World) returns (env: Renewal)
    requires WellFormedWorld(w) && Safe(w) && !ClockOk(w) && w.agent.mode.RotateKey?
    ensures Enabled(w, Renew(env)) && !NeverLocks(RenewedWith(w, env, ""))
  {
    var serial := FreshSerial(w.used);
    env := LostRenewal(Ok(Certificate(serial, w.serverNow, w.serverNow, 0, false, Unlimited))).env;
    var w1 := RenewedWith(w, env, "");
    assert Claimed(w1) == Claimed(w) && WellFormedWorld(w1) && !IsLocked(w1) && !Safe(w1);
    NoSelfLock(w1);
  }

  /** From a safe state, whatever mode the agent restarts in, every blind attempt leaves it unable to
      lock itself out if and only if the record has not expired by certd's clock while the agent
      claims a serial. */
  lemma BlindExactly(w: World)
    requires WellFormedWorld(w) && Safe(w)
    ensures (forall mode, env :: Enabled(w, Renew(env)) ==> NeverLocks(RenewedWith(Step(w, Event.Restart(mode)), env, "")))
            <==> ClockOk(w)
  {
    if ClockOk(w) {
      forall mode, env | Enabled(w, Renew(env)) ensures NeverLocks(RenewedWith(Step(w, Event.Restart(mode)), env, "")) {
        var w1 := Step(w, Event.Restart(mode));
        StepKeepsSafe(w, Event.Restart(mode));
        BlindKeepsSafe(w1, env);
        NoSelfLock(RenewedWith(w1, env, ""));
      }
    } else {
      var w1 := Step(w, Event.Restart(RotateKey));
      StepKeepsSafe(w, Event.Restart(RotateKey));
      var env := BlindBreaks(w1);
    }
  }

  // -------------------------------------------------------------------------------------
  // Runs
  // -------------------------------------------------------------------------------------

  /** Every blind attempt of the run happens while the clocks allow it. */
  predicate ClockedRun(w: World, acts: seq<Act>)
    decreases |acts|
  {
    acts != [] ==>
      && ActEnabled(w, acts[0]) && (acts[0].Blind? ==> ClockOk(w))
      && ClockedRun(ActStep(w, acts[0]), acts[1..])
  }

  function ActRun(w: World, acts: seq<Act>): World
    decreases |acts|
  {
    if acts == [] then w else ActRun(ActStep(w, acts[0]), acts[1..])
  }

  lemma {:induction false} ClockedRunsStaySafe(w: World, acts: seq<Act>)
    requires WellFormedWorld(w) && Safe(w) && ClockedRun(w, acts)
    ensures Safe(ActRun(w, acts)) && !IsLocked(ActRun(w, acts))
    decreases |acts|
  {
    if acts != [] {
      match acts[0] {
        case Plain(e) => StepKeepsSafe(w, e);
        case Blind(env) => BlindKeepsSafe(w, env);
      }
      ClockedRunsStaySafe(ActStep(w, acts[0]), acts[1..]);
    }
  }

  // -------------------------------------------------------------------------------------
  // Clocks in step
  // -------------------------------------------------------------------------------------

  /** A rule for the deployment: certd's clock is not ahead of the agent's, and no certificate
      expires before the one it replaces. */
  predicate InStep(w: World, a: Act) {
    match a
    case Plain(ServerClock(now)) => now <= w.agentNow
    case Plain(Renew(env)) => env.minted.Ok? && w.row.Some? ==> w.row.value.currentNotAfter <= env.minted.value.notAfter
    case Blind(env) => env.minted.Ok? && w.row.Some? ==> w.row.value.currentNotAfter <= env.minted.value.notAfter
    case _ => true
  }

  /** What the agent claims does not outlive the record. */
  predicate Covered(w: World) {
    && w.serverNow <= w.agentNow
    && (Claimed(w) != "" ==> w.row.Some? && w.agent.disk.cert.content.notAfter <= w.row.value.currentNotAfter)
  }

  lemma CoveredIsClockOk(w: World)
    requires Covered(w)
    ensures ClockOk(w)
  {
  }

  lemma RenewKeepsCovered(w: World, env: Renewal, serial: string)
    requires Covered(w) && (env.minted.Ok? && w.row.Some? ==> w.row.value.currentNotAfter <= env.minted.value.notAfter)
    ensures Covered(RenewedWith(w, env, serial))
  {
    CertFileAfter(w.agent, Attempt(env.keyFault, Answered(w, env, serial).1, env.crashWaiting, env.path));
  }

  lemma ActKeepsCovered(w: World, a: Act)
    requires Covered(w) && ActEnabled(w, a) && InStep(w, a)
    ensures Covered(ActStep(w, a))
  {
    match a
    case Plain(Renew(env)) => RenewKeepsCovered(w, env, Claimed(w));
    case Blind(env) => RenewKeepsCovered(w, env, "");
    case _ =>
  }

  predicate InStepRun(w: World, acts: seq<Act>)
    decreases |acts|
  {
    acts != [] ==> ActEnabled(w, acts[0]) && InStep(w, acts[0]) && InStepRun(ActStep(w, acts[0]), acts[1..])
  }

  lemma {:induction false} InStepIsClocked(w: World, acts: seq<Act>)
    requires Covered(w) && InStepRun(w, acts)
    ensures ClockedRun(w, acts)
    decreases |acts|
  {
    if acts != [] {
      CoveredIsClockOk(w);
      ActKeepsCovered(w, acts[0]);
      InStepIsClocked(ActStep(w, acts[0]), acts[1..]);
    }
  }

  /** Under that rule the guarantee holds with blind attempts too, over every run: an agent that is
      safe, and claims nothing that outlives the record, is never locked. */
  lemma {:induction false} InStepNeverLocks(w: World, acts: seq<Act>)
    requires WellFormedWorld(w) && Safe(w) && Covered(w) && InStepRun(w, acts)
    ensures !IsLocked(ActRun(w, acts))
  {
    InStepIsClocked(w, acts);
    ClockedRunsStaySafe(w, acts);
  }
}
