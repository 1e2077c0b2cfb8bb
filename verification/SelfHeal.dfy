/** An agent that lost its certificate presents no serial: how long the guard keeps it out. */
module SelfHeal {
  import opened Wrappers
  import opened Durations
  import opened Policy
  import opened X509Engine
  import opened ActiveCerts
  import opened SignX509

  /** A renewal that presents nothing, with what the engine would mint for it. */
  datatype EmptyRequest = EmptyRequest(now: int, minted: Result<Certificate, Refusal>, faults: Faults)

  function Served(row: Option<ActiveCert>, r: EmptyRequest): (Option<ActiveCert>, Reply) {
    SignStep(row, "", r.now, r.minted, r.faults)
  }

  function RowAfter(row: Option<ActiveCert>, rs: seq<EmptyRequest>): Option<ActiveCert>
    decreases |rs|
  {
    if rs == [] then row else RowAfter(Served(row, rs[0]).0, rs[1..])
  }

  /** While the recorded certificate is valid, any number of such requests are all refused and
      leave the row, unlocked, as it was. */
  lemma {:induction false} RefusedUnchanged(row: ActiveCert, rs: seq<EmptyRequest>)
    requires !row.Locked() && forall i :: 0 <= i < |rs| ==> rs[i].now <= row.currentNotAfter
    ensures RowAfter(Some(row), rs) == Some(row)
    ensures forall i :: 0 <= i < |rs| ==> Served(Some(row), rs[i]).1.Err?
    decreases |rs|
  {
    if rs != [] {
      assert forall i :: 0 <= i < |rs| - 1 ==> rs[1..][i] == rs[i + 1];
      RefusedUnchanged(row, rs[1..]);
      assert forall i :: 0 < i < |rs| ==> rs[i] == rs[1..][i - 1];
    }
  }

  /** Self-healing: after an issuance, and any refused requests since, a request presenting nothing
      is served exactly when the recorded certificate has expired (if the store and the engine do
      their part); it leaves no previous serial and no lock. Expiry comes within 24 hours of the
      issuance, so the guard refuses the identity no longer than that. */
  lemma {:induction false} HealsWithinMaxTTL(policyOn: bool, glob: Glob, roles: Lookup, req: Request, env: Env,
                          before: Option<ActiveCert>, previousSerial: string, previousNotAfter: Option<int>,
                          rs: seq<EmptyRequest>, last: EmptyRequest)
    requires before.Some? ==> !before.value.Locked()
    requires Admit(policyOn, glob, roles, req, env).Ok?
    requires Mint(req, env, Admit(policyOn, glob, roles, req, env).value).Ok?
    requires
      var cert := Mint(req, env, Admit(policyOn, glob, roles, req, env).value).value;
      forall i :: 0 <= i < |rs| ==> rs[i].now <= cert.notAfter
    requires last.minted.Ok? && last.faults == Faults(false, false, false)
    ensures
      var cert := Mint(req, env, Admit(policyOn, glob, roles, req, env).value).value;
      var row := RowAfter(Some(Recorded(before, cert, previousSerial, previousNotAfter)), rs);
      var (healed, reply) := Served(row, last);
      && cert.notAfter <= env.now + MAX_TTL
      && (reply == last.minted <==> last.now > cert.notAfter)
      && (last.now > env.now + MAX_TTL ==> reply == last.minted)
      && (reply.Ok? ==> healed.Some? && healed.value.currentSerial == last.minted.value.serial
                        && healed.value.previousSerial == "" && !healed.value.Locked())
      && (reply.Err? ==> healed == row)
  {
    var cert := Mint(req, env, Admit(policyOn, glob, roles, req, env).value).value;
    IssuedWindow(policyOn, glob, roles, req, env);
    TruncateBounds(env.now, env.now);
    RefusedUnchanged(Recorded(before, cert, previousSerial, previousNotAfter), rs);
  }
}
