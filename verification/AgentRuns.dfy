/** What every run of the renewer keeps true of its two files: attempts that succeed, fail at any
    step or die at any point, and restarts that may change the key mode. The files a crash leaves
    are exactly the files a reader could have seen at that moment. */
module AgentRuns {
  import opened Wrappers
  import opened X509Engine
  import opened Agent

  datatype Event = Try(env: Attempt) | Restart(mode: Mode)

  function Step(a: State, e: Event): State {
    match e
    case Try(env) => SignOnce(a, env).0
    case Restart(mode) => a.(mode := mode, memory := FORGOTTEN)
  }

  function Run(a: State, es: seq<Event>): State
    decreases |es|
  {
    if es == [] then a else Run(Step(a, es[0]), es[1..])
  }

  /** The certificate on disk, if any, certifies the key on disk. */
  predicate Paired(disk: Disk) {
    disk.cert.Holds? ==> disk.key == Holds(disk.cert.content.publicKey)
  }

  /** The key on disk was generated no earlier than the one the certificate certifies. */
  predicate KeyNotOlder(disk: Disk) {
    disk.cert.Holds? ==> disk.key.Holds? && disk.cert.content.publicKey <= disk.key.content
  }

  /** No key is newer than the newest generated, and a remembered key is the one on disk, or
      is still to be written where there is none. */
  predicate Consistent(a: State) {
    && (a.disk.key.Holds? ==> a.disk.key.content <= a.generated)
    && (a.disk.cert.Holds? ==> a.disk.cert.content.publicKey <= a.generated)
    && (a.mode.RotateKey? ==> a.memory == FORGOTTEN)
    && (a.memory.key.Some? ==>
          && a.memory.key.value <= a.generated
          && (a.disk.key == Holds(a.memory.key.value) || (a.disk.key.Absent? && !a.memory.persisted)))
  }

  predicate StaysStable(es: seq<Event>) {
    forall i :: 0 <= i < |es| && es[i].Restart? ==> es[i].mode.StableKey?
  }

  lemma StepConsistent(a: State, e: Event)
    requires Consistent(a)
    ensures Consistent(Step(a, e))
    ensures KeyNotOlder(a.disk) ==> KeyNotOlder(Step(a, e).disk)
  {
  }

  /** One attempt in stable mode: the pair stays matched and a written key is never rewritten. */
  lemma StableStep(a: State, e: Event)
    requires Consistent(a) && a.mode.StableKey? && (e.Restart? ==> e.mode.StableKey?)
    ensures Step(a, e).mode.StableKey?
    ensures Paired(a.disk) ==> Paired(Step(a, e).disk)
    ensures a.disk.key.Holds? ==> Step(a, e).disk.key == a.disk.key
  {
  }

  /** Stable-key mode, over every run: from a matched or absent pair the certificate on disk
      always certifies the key on disk, and the key file never changes once written. */
  lemma {:induction false} StableKeyRuns(a: State, es: seq<Event>)
    requires Consistent(a) && a.mode.StableKey? && StaysStable(es)
    ensures Consistent(Run(a, es))
    ensures Paired(a.disk) ==> Paired(Run(a, es).disk)
    ensures a.disk.key.Holds? ==> Run(a, es).disk.key == a.disk.key
    decreases |es|
  {
    if es != [] {
      StepConsistent(a, es[0]);
      StableStep(a, es[0]);
      StableKeyRuns(Step(a, es[0]), es[1..]);
    }
  }

  /** In any run, rotating or mixed: the key on disk is never older than the certificate. */
  lemma {:induction false} KeyNeverOlder(a: State, es: seq<Event>)
    requires Consistent(a)
    ensures Consistent(Run(a, es))
    ensures KeyNotOlder(a.disk) ==> KeyNotOlder(Run(a, es).disk)
    decreases |es|
  {
    if es != [] {
      StepConsistent(a, es[0]);
      KeyNeverOlder(Step(a, es[0]), es[1..]);
    }
  }

  /** After any run, an attempt that reports success leaves a matched pair on disk: the
      certificate certd returned, over the key it was asked to certify. */
  lemma {:induction false} SuccessLeavesPair(a: State, es: seq<Event>, env: Attempt)
    requires Consistent(a)
    requires SignOnce(Run(a, es), env).1.Renewed?
    ensures
      var disk := SignOnce(Run(a, es), env).0.disk;
      && Paired(disk) && disk.cert.Holds? && env.response.Some?
      && disk.cert.content == env.response.value.(publicKey := disk.key.content)
  {
    KeyNeverOlder(a, es);
  }

  /** Exactly when an attempt splits a matched pair: a rotating renewer that was answered and
      stopped between the two renames, with a certificate already in place. */
  lemma PairSplitsExactly(a: State, env: Attempt)
    requires Consistent(a) && Paired(a.disk)
    ensures !Paired(SignOnce(a, env).0.disk) <==>
      && a.mode.RotateKey?
      && a.disk.cert.Holds?
      && !env.keyFault.KeyGenerationFails? && !env.crashWaiting && env.response.Some?
      && (env.path.CertRenameFails? || env.path.CrashBetweenRenames?)
  {
  }

  /** It does happen: a rotating renewer with a matched pair crashes between the two renames, and
      its new key stands beside the certificate of the old one. */
  lemma CrashSplitsPair(cert: Certificate, renewed: Certificate)
    requires cert.publicKey == 1
    ensures
      var a := State(RotateKey, FORGOTTEN, Disk(Holds(1), Holds(cert)), 1);
      var after := SignOnce(a, Attempt(NoKeyFault, Some(renewed), false, CrashBetweenRenames)).0.disk;
      Consistent(a) && Paired(a.disk) && after == Disk(Holds(2), Holds(cert)) && !Paired(after)
  {
  }

  // -------------------------------------------------------------------------------------
  // Which key is certified
  // -------------------------------------------------------------------------------------

  /** The key an attempt certifies. Rotating: one newer than all before, unless none can be generated.
      Stable: the one on disk; where there is none, the one remembered from an earlier attempt, or else
      a new one; and none if the file cannot be read or understood. A key not yet on disk is written. */
  lemma PickedExactly(a: State, fault: KeyFault)
    requires Consistent(a)
    ensures
      var picked := KeyForRenewal(a, fault).2;
      var remembered := a.memory.key;
      if a.mode.RotateKey? then picked == if fault.KeyGenerationFails? then None else Some(Picked(a.generated + 1, true))
      else
        && (picked.None? <==> remembered.None? && (fault.KeyReadFails? || a.disk.key.Garbled? || (a.disk.key.Absent? && fault.KeyGenerationFails?)))
        && (picked.Some? && a.disk.key.Holds? ==> picked.value.key == a.disk.key.content)
        && (picked.Some? && a.disk.key.Absent? ==>
              picked.value == Picked(if remembered.Some? then remembered.value else a.generated + 1, true))
  {
  }

  /** An attempt succeeds exactly when a key is had, the process survives, certd answers and every write
      completes. */
  lemma RenewedExactly(a: State, env: Attempt)
    ensures SignOnce(a, env).1.Renewed? <==>
      KeyForRenewal(a, env.keyFault).2.Some? && !env.crashWaiting && env.response.Some? && env.path.Completes?
  {
  }

  /** A key generated in stable mode survives failed attempts but not a crash: after a failure the next
      success certifies and writes the same key, after a crash before anything was written it is another. */
  lemma CrashForgetsKey(a: State, first: Attempt, second: Attempt)
    requires Consistent(a) && a.mode.StableKey? && a.memory == FORGOTTEN && a.disk.key.Absent?
    requires !first.keyFault.KeyGenerationFails? && !first.keyFault.KeyReadFails? && !second.keyFault.KeyReadFails?
    requires SignOnce(a, first).0.disk == a.disk
    requires SignOnce(SignOnce(a, first).0, second).1.Renewed?
    ensures
      var key := SignOnce(SignOnce(a, first).0, second).0.disk.key;
      && (SignOnce(a, first).1.Failed? ==> key == Holds(a.generated + 1))
      && (SignOnce(a, first).1.Crashed? ==> key == Holds(a.generated + 2))
  {
  }

  /** Once a success has written the key in stable mode, later attempts leave the key file alone until a
      restart, and then find that key. */
  lemma WrittenOnce(a: State, env: Attempt, fault: KeyFault)
    requires Consistent(a) && a.mode.StableKey? && SignOnce(a, env).1.Renewed?
    ensures
      var after := SignOnce(a, env).0;
      && (KeyForRenewal(after, fault).2.Some? ==> KeyForRenewal(after, fault).2 == Some(Picked(after.disk.key.content, false)))
      && KeyForRenewal(Step(after, Restart(StableKey)), NoKeyFault).2 == Some(Picked(after.disk.key.content, false))
  {
  }
}
