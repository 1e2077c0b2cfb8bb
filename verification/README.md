# Verified model of certd and cert-agentd

certd is a certificate authority: it signs short-lived X.509 workload certificates and SSH certificates, decides who may have them from a role table, remembers which certificate of each identity is current, and keeps a list of revoked ones. cert-agentd runs beside a workload and renews its certificate and key on disk. This project models their logic in Dafny and proves what they promise about whole runs.

Check the whole project with `dafny verify dfyconfig.toml`.

## What is modelled

**The renewal guard, as a protocol.** `ActiveCerts` is the table with one row per identity (current serial, one-step previous serial, lock). `SignX509` is the handler: admission, the guard's branches, minting, the record. `Agent` is cert-agentd's side: the key and certificate files, the two renames of a bundle, the cached key. On top of these:
- `RenewalProtocol` runs one agent against certd with lost responses, failed writes, crashes, restarts, late or lost acknowledgements and moving clocks. Its main theorem, `NoSelfLock`, says exactly from which states the agent can never be locked out.
- `BlindReads` adds attempts that cannot read the certificate file for once: exactly when one endangers the agent, and a rule for clocks and lifetimes under which none does.
- `Holders` runs any number of holders of one serial, each of which presents nothing once its own certificate has expired: how often the identity can change hands, exactly when it is locked, and which holder is never seen.
- `LockSurvival` splits a request into its read and its write, with any number of requests interleaved: what a lock survives, and exactly when a dropped serial can come back.
- `SelfHeal` bounds how long an agent that lost its certificate is refused.

**The agent's files and loop.** `AgentRuns` (which key a certificate on disk certifies, over every run and crash point) and `RenewLoop` (outages the loop survives).

**Validity and chains.** `Durations` models the 64-bit, wrapping duration arithmetic, `X509Engine` the certificate builders, `SignSSH` the SSH windows.

**Role policy.** `RoleIndex` is the in-memory role store with its by-group index, `Policy` the three decisions, `Decisions` what each means in terms of the roles' fields. `path.Match` is an uninterpreted function that answers match, no match or bad pattern.

**Reconcile.** `RoleTable` is the owner-marked role table, `Reconcile` the diff and its application, `Convergence` the theorems about them, and `AnyFile` what they come to for files that repeat names. `Sorting` holds the sorts all of this relies on.

**Revocation.** `Krl` is the two-index store and its snapshot, `KrlSpec` and `KrlFile` the text spec and a reader of it (a line is a `serial:` directive, an `id:` directive, or a comment; this reader is part of the model, and nothing is claimed about how ssh-keygen parses the file), `Decimal` the serial number codec, `Text` splitting at newlines.

**The portal form and the issuer reload.** `Trimming`, `RoleForm` and `RoleFormCodec` are the role form with its parser, printer and round trip; `Reloader` is the modification-time cache of the issuer certificate.

Code that updates state is a class or a method with loops, proved against a specification function; the theorems are about those functions. Lemmas that Dafny would try by automatic induction carry `{:induction false}`: their proofs are their bodies.

## Conventions

- Times and durations are integer nanoseconds. Where the source multiplies durations the product wraps at 64 bits, and `Sub` saturates, as Go's does. Adding a TTL to the current time does not wrap.
- Keys are numbers in the order of their generation; a certificate is the fields its template sets. Signatures are not modelled.
- Strings are sequences of Unicode code points. Go's `<` on valid UTF-8 is the order by code point.
- Every statement of a store that the model calls, every system call of the agent and the reloader, and every response comes with a parameter saying whether it fails.
- The clock, random serials and request bodies are parameters. "Fresh" serials are those not used before in the run.

## Where the code does not keep a promise

Each of these has a lemma that shows it on an input or a family of inputs, and a lemma that gives the exact condition.

| what happens | shown by | exactly when |
|---|---|---|
| some requests far over the TTL maximum are granted as short ones, because `resolveTTL` compares a wrapped product (the window of a certificate stays within the maximum in every case, `IssuedWindow`) | `OverlongRequestGranted` | `ResolveTTLExact` |
| an SSH certificate is signed with an empty window | `EmptyWindowSigned` | `SSHWindow` |
| an agent with no row that still claims a serial is locked out by its own renewals | `StaleClaimLocks` | `NoRowIsUnsafe`, `NoSelfLock` |
| a request that arrives twice locks the identity, or is served and takes the row away from the agent | `ReplayedRequestLocks` | `ReplayLocksExactly`, `ReplayHarmlessExactly` |
| a serial that an ack dropped is accepted again, because another request read before the ack and writes after it | `RaceRevives` | `AckFinalExactly`, `NeverBackExactly` |
| a second holder that is superseded keeps trying and is never detected, because its own certificate has expired and it presents nothing | `ExpiredCloneMissed`, `ExpiredUnseen` | `LockedExactly`, `RenewLocksExactly` |
| an agent that could not read its certificate for one attempt is locked out later, because certd's clock is past the record's expiry and re-enrols it | `BlindBreaks` | `BlindExactly` |
| a role's TTL cap takes effect as another, because its seconds wrap as a duration | `WrappedCaps` | `CapExact` |
| the key and certificate on disk do not match, because rotating them is two renames | `CrashSplitsPair` | `PairSplitsExactly` |
| joining a group takes a host or workload certificate away, because one of its patterns is malformed | `MalformedRefuses` | `HostUnion`, `X509Union` |
| applying a plan fails on a file that repeats a new role | `RepeatedRoleFails` | `AppliesExactly` |
| every run of reconcile succeeds and leaves an update for the next, because the file gives one role in two ways | `RepeatedRoleChurns` | `ConvergesExactly` |
| `parseUint64` returns another number than the digits denote | `OverflowMissed` | `OverflowExact`, `ParseExact` |
| the KRL spec of one revocation by key id reads as revoking a serial too, because the key id or the revoker holds a newline (a key id comes from the request body unchecked; a revoker is the authenticated caller's name or "portal") | `KeyIDPlants`, `RevokerPlants` | `FileAgreesExactly`; `ReadBack` for the list of directives itself |
| the issuer cache serves stale content, because two versions of the file share a modification time | `SameTimeServesStale` | `FastPathExact` |

The name `sameSet` and its comment speak of sets; the code compares multisets, and so does the model (`SameSetIsMultisetEquality`).

## Model

| member | source | states |
|---|---|---|
| `RenewalProtocol.NoSelfLock` | internal/server/api/sign_x509.go:154-236 | an unlocked agent is never locked in any run of renewals, lost replies, late, repeated or lost acks, failed writes, crashes, restarts and lost files if and only if the serial it claims is accepted by its row (and is the current one where an ack for the current one is outstanding), or it claims none |
| `RenewalProtocol.RunsStaySafe` | internal/agent/renew/renewer.go:220-293 | over every run from a safe state the serial on disk stays current, previous or unclaimed and the row unlocked |
| `RenewalProtocol.StepKeepsSafe` | internal/server/api/sign_x509.go:154-277 | each event, of either side, keeps the safe states |
| `RenewalProtocol.RenewKeepsSafe` | internal/agent/renew/renewer.go:220-293 | a renewal keeps the safe states wherever it is cut: refused, unrecorded, undelivered, crashed or half written |
| `RenewalProtocol.CertFileAfter` | internal/agent/renew/renewer.go:220-293 | an attempt leaves the certificate file as it was or holding what certd returned, and the latter whenever it reports success |
| `RenewalProtocol.UnsafeLocks` | internal/server/api/sign_x509.go:216-234 | from every unlocked unsafe state some run of at most four renewals, acks and restarts locks the identity |
| `RenewalProtocol.StaleClaimLocks` | internal/server/api/sign_x509.go:216-234 | an agent claiming a serial its row does not accept is at most two of its own renewals from the lock |
| `RenewalProtocol.PersistedIsSafe` | internal/server/api/sign_x509.go:265-277 | after any renewal that certd recorded and the agent wrote, the agent never locks itself out again |
| `RenewalProtocol.NoRowIsUnsafe` | internal/server/api/sign_x509.go:152-161 | with no row the guarantee holds exactly when the agent claims no serial |
| `RenewalProtocol.ReplayLocksExactly` | internal/server/api/sign_x509.go:176-234 | a duplicate of an accepted request, arriving after any run of the agent's own events, locks an unlocked identity exactly when the record is valid and the run has forgotten its serial: the agent was served presenting another one, or an ack of the current certificate arrived |
| `RenewalProtocol.ReplayHarmlessExactly` | internal/server/api/sign_x509.go:154-277 | such a duplicate, served or not, leaves a safe agent unable ever to lock itself out exactly when the agent still claims that serial, or claims none and the duplicate does not lock |
| `RenewalProtocol.ForgottenExactly` | internal/server/api/sign_x509.go:176-187 | over any run, a superseded serial stays accepted exactly until an event forgets it, and never comes back |
| `RenewalProtocol.ReplayedRequestLocks` | internal/server/api/sign_x509.go:176-234 | an accepted request that arrives again after its successor was acknowledged locks the identity |
| `BlindReads.BlindExactly` | internal/agent/renew/renewer.go:459-463 | from a safe state, every attempt whose read of the certificate file fails leaves the agent unable ever to lock itself out if and only if the record has not expired by certd's clock while the agent claims a serial |
| `BlindReads.BlindKeepsSafe` | internal/server/api/sign_x509.go:188-215 | while the clocks allow it, such an attempt keeps the safe states wherever it is cut |
| `BlindReads.BlindBreaks` | internal/server/api/sign_x509.go:188-199 | otherwise an attempt whose reply is lost leaves a state from which some run locks |
| `BlindReads.ClockedRunsStaySafe` | internal/agent/renew/renewer.go:220-293 | runs whose blind attempts all happen while the clocks allow it never lock a safe agent |
| `BlindReads.InStepNeverLocks` | internal/agent/renew/renewer.go:220-293 | if certd's clock is never ahead of the agent's and no certificate expires before the one it replaces, no run with any number of blind attempts locks a safe agent |
| `Holders.HandoversBounded` | internal/server/api/sign_x509.go:154-277 | among the holders of one serial, in every interleaving of renewals and acks, locking or not, the identity changes hands less often than there are holders (at most once between two) |
| `Holders.HandoversFrom` | internal/server/api/sign_x509.go:154-277 | the same from every unlocked state of the invariant |
| `Holders.LockedExactly` | internal/server/api/sign_x509.go:154-277 | over every run, the identity is locked if and only if some holder presented a serial that was neither current nor previous, its own certificate being still valid by its clock |
| `Holders.TwoHoldersDetected` | internal/server/api/sign_x509.go:216-234 | once two holders have each presented a serial twice, in any order, the identity is locked |
| `Holders.ExpiredUnseen` | internal/agent/renew/renewer.go:472-474 | a holder that presents nothing, its certificate having expired, leaves no trace in any run, however often it tries |
| `Holders.ExpiredCloneMissed` | internal/server/api/sign_x509.go:200-215 | two holders that each tried to renew twice, the second superseded and expired, and no lock |
| `Holders.SupersededExactly` | internal/server/api/sign_x509.go:176-234 | after any unlocked run, exactly which holders are superseded: before anyone is served, all, if the shared serial was the previous one and an ack dropped it; afterwards, each but the owner that has been served itself, or once the owner renewed again, or once the owner's ack dropped the grace |
| `Holders.RenewLocksExactly` | internal/server/api/sign_x509.go:176-234 | a holder's renewal while the record is valid locks the row if and only if its serial is neither current nor previous and its own certificate has not expired; an expired holder's renewal changes nothing |
| `Holders.RunKeepsInvariant` | internal/server/api/sign_x509.go:154-277 | while unlocked, every run keeps the owner at the current serial, all other holders at the shared or a dead serial, handovers one less than the holders served, and serves every attempt that presents a serial |
| `Holders.StepKeepsInvariant` | internal/server/api/sign_x509.go:154-277 | each non-locking step, a blank attempt included, keeps that invariant and its counts |
| `Holders.ServedKeepsInvariant` | internal/server/api/sign_x509.go:265-277 | recording a fresh serial for an accepted holder keeps the invariant, and a new owner was never served before |
| `Holders.AdoptKeepsInvariant` | internal/store/sqlite/sqlite_active_certs.go:64-74 | dropping the grace keeps the invariant |
| `Holders.LockPersists` | internal/server/api/sign_x509.go:162-175 | once locked, no renewal or ack changes anything |
| `LockSurvival.LockSurvives` | internal/store/sqlite/sqlite_active_certs.go:28-60 | with reads and writes of any number of requests interleaved, a locked row stays locked until cleared, and the certificates issued after it go to distinct requests that had read before it |
| `LockSurvival.LockedStep` | internal/store/store.go:427-434 | no single statement unlocks the row or lets a new request past the guard |
| `LockSurvival.AtomicRequest` | internal/server/api/sign_x509.go:155-277 | a read and write with nothing between them are the one-step request of the other theorems |
| `LockSurvival.NeverBackExactly` | internal/server/api/sign_x509.go:155-277 | a serial the row does not accept is never accepted again, in any run of reads, writes, acks and clears of any number of requests, if and only if no request in flight carries it as previous |
| `LockSurvival.AckFinalExactly` | internal/store/sqlite/sqlite_active_certs.go:64-74 | so an ack's drop is final exactly if no request that read before it has yet to write that serial back |
| `LockSurvival.StaysDropped` | internal/server/api/sign_x509.go:155-277 | no single statement brings back a serial that neither the row nor a request in flight has |
| `LockSurvival.RaceRevives` | internal/server/api/sign_x509.go:155-277 | two requests, an ack between the second's read and write, and the dropped serial accepted again |
| `SelfHeal.RefusedUnchanged` | internal/server/api/sign_x509.go:200-215 | any number of requests presenting nothing while the record is valid are all refused and leave the row as it was |
| `SelfHeal.HealsWithinMaxTTL` | internal/server/api/sign_x509.go:188-199 | after an issuance and any such refusals, a request presenting nothing is served exactly when the recorded certificate has expired, hence after at most 24 hours, and then previous is cleared |
| `SignX509.Server.Admission` | internal/server/api/sign_x509.go:66-144 | the checks before the guard in the handler's order, and the TTL they leave |
| `SignX509.Server.CheckGuard` | internal/server/api/sign_x509.go:154-236 | each branch of the guard: what is carried over as previous, the refusal, and that only escalation writes |
| `SignX509.Server.HandleSignWorkloadCert` | internal/server/api/sign_x509.go:66-299 | the handler's reply and the row it leaves, every other row untouched, and no record at all without a store |
| `SignX509.IssuedExactly` | internal/server/api/sign_x509.go:154-277 | for every row, serial, time, mint and fault, a certificate is returned if and only if the store answers, the engine mints it, it is recorded, and there is no row, or the row is unlocked and has the presented serial or has expired; so a suspected clone is refused even if the lock write fails |
| `SignX509.RefusedBecause` | internal/server/api/sign_x509.go:154-277 | which refusal each situation gets |
| `SignX509.RowAfterIssuance` | internal/server/api/sign_x509.go:265-277 | every column after an issuance: the new certificate, the serial rotated from with its own expiry or none, no lock |
| `SignX509.RowAfterRefusal` | internal/server/api/sign_x509.go:216-234 | a refusal leaves every column, except that a suspected clone stamps time and serial if the lock can be written |
| `SignX509.AdmittedExactly` | internal/server/api/sign_x509.go:66-144 | with policy on, admitted if and only if issuer, key, URI and groups are there, the TTL resolves, the issuer has 24 hours left, the groups have roles, every SPIFFE pattern of these parses and one matches the URI, and then for the smaller of the TTL asked and their largest X.509 cap; without policy, the first four and the TTL asked |
| `SignX509.DeniedBecause` | internal/server/api/sign_x509.go:66-144 | each denial names something that is wrong |
| `SignX509.MintedExactly` | internal/server/api/sign_x509.go:238-257 | a certificate is minted exactly for a complete workload request with a positive TTL, over the key asked, with the serial drawn, from now to the end of the TTL or of the issuer |
| `SignX509.IssuedWindow` | internal/server/api/sign_x509.go:135-144 | for every 64-bit `ttl_seconds` and role cap, a minted certificate has a template window equal to the decided TTL, positive and at most 24 hours: the issuer clamp never fires |
| `SignX509.AdmittedTTL` | internal/server/api/sign_x509.go:91-144 | an admitted TTL is at most the maximum and ends before the issuer does |
| `SignX509.ResolveTTLExact` | internal/server/api/sign_ssh.go:335-344 | `resolveTTL` refuses what is over the maximum exactly when the wrapped product still is; every request whose product does not wrap is decided right |
| `SignX509.OverlongRequestGranted` | internal/server/api/sign_ssh.go:335-344 | a request for 2^55 + 3600 seconds is granted as one hour |
| `SignSSH.SSHWindow` | internal/server/sshengine/sshengine.go:98-141 | a signed SSH certificate has a TTL in (0, maximum], a window within the maximum, exact on whole seconds, and empty exactly when it does not reach the next second |
| `SignSSH.UserDecidedExactly` | internal/server/api/sign_ssh.go:103-204 | a user request's TTL: the seconds asked or an hour, refused above a day; with policy on, granted on the roles' principals and capped by their user caps |
| `SignSSH.HostDecidedExactly` | internal/server/api/sign_ssh.go:206-294 | a host request's TTL: the seconds asked or a week, refused above thirty days; with policy on, granted on the roles' host patterns and capped by their host caps |
| `SignSSH.EmptyWindowSigned` | internal/server/api/sign_ssh.go:103-204 | a `ttl_seconds` that wraps to 512 ns is signed with an empty window |
| `ActiveCerts.ActiveCertStore.Get` | internal/store/sqlite/sqlite_active_certs.go:14-25 | returns the identity's row, none, or the query error, and changes nothing |
| `ActiveCerts.ActiveCertStore.Upsert` | internal/store/sqlite/sqlite_active_certs.go:28-40 | replaces the issuance columns of one row and keeps its lock columns |
| `ActiveCerts.ActiveCertStore.Delete` | internal/store/sqlite/sqlite_active_certs.go:43-47 | removes one row, or on an error nothing |
| `ActiveCerts.ActiveCertStore.Lock` | internal/store/sqlite/sqlite_active_certs.go:51-60 | stamps the lock columns of one existing row and nothing else |
| `ActiveCerts.ActiveCertStore.AdoptCurrent` | internal/store/sqlite/sqlite_active_certs.go:64-74 | clears previous exactly when the serial is current and the row unlocked, and reports whether it did, or on an error changes nothing |
| `Agent.FileSystem.StageTemp` | internal/agent/output/file.go:80-108 | writes one new temp file or leaves none |
| `Agent.FileSystem.Rename` | internal/agent/output/file.go:55-75 | moves a staged file onto its path in one step |
| `Agent.FileSystem.WriteAtomic` | internal/agent/output/file.go:21-31 | the files after each failure or crash point, and no temp file left by a process that lives |
| `Agent.FileSystem.WriteBundleAtomic` | internal/agent/output/file.go:55-75 | the same for key and certificate: the key is renamed first, the certificate last |
| `Agent.Renewer.PickKey` | internal/agent/renew/renewer.go:351-411 | which key a renewal uses in each mode, and what is then cached |
| `Agent.Renewer.SignOnceOnDisk` | internal/agent/renew/renewer.go:220-293 | one attempt on the modelled file system does what `SignOnce` says to files, cached key and outcome |
| `AgentRuns.StableKeyRuns` | internal/agent/renew/renewer.go:351-418 | stable mode, every run: from a matched or absent pair the certificate on disk always certifies the key on disk, and a written key file never changes |
| `AgentRuns.StableStep` | internal/agent/renew/renewer.go:351-418 | one attempt in stable mode keeps both |
| `AgentRuns.KeyNeverOlder` | internal/agent/output/file.go:55-75 | in every run of either mode the key on disk is never older than the certificate's |
| `AgentRuns.StepConsistent` | internal/agent/renew/renewer.go:375-418 | each attempt and restart keeps the cached key in step with the key file |
| `AgentRuns.SuccessLeavesPair` | internal/agent/renew/renewer.go:220-293 | after any run, a successful attempt leaves a matched pair: certd's certificate over the key it was asked to certify |
| `AgentRuns.PickedExactly` | internal/agent/renew/renewer.go:351-411 | which key an attempt certifies, in each mode and whatever disk and memory hold, and when there is none |
| `AgentRuns.RenewedExactly` | internal/agent/renew/renewer.go:220-293 | an attempt succeeds exactly when a key is had, the process survives, certd answers and the writes complete |
| `AgentRuns.CrashForgetsKey` | internal/agent/renew/renewer.go:375-411 | a key generated in stable mode survives failed attempts, and after a crash before anything was written the next success certifies another |
| `AgentRuns.WrittenOnce` | internal/agent/renew/renewer.go:414-418 | after a success in stable mode later attempts and restarts use the written key and leave its file alone |
| `AgentRuns.PairSplitsExactly` | internal/agent/output/file.go:55-75 | an attempt splits a matched pair exactly when a rotating renewer was answered and stopped between the two renames with a certificate already in place |
| `AgentRuns.CrashSplitsPair` | internal/agent/output/file.go:55-75 | a matched pair and an attempt that leaves a new key beside the old certificate |
| `RenewLoop.Run` | internal/agent/renew/renewer.go:302-330 | the loop's state when it aborts, or when its context is cancelled in the wait after any given attempt |
| `RenewLoop.FirstAttemptBeforeExpiry` | internal/agent/renew/renewer.go:334-343 | the first attempt after an issuance comes before expiry exactly when the minimum interval is shorter than the lifetime |
| `RenewLoop.DelayExactly` | internal/agent/renew/renewer.go:334-343 | whenever the clock reads, the wait is the one that ends when num/den of the lifetime has passed, to the last whole unit, or the minimum interval if that is longer |
| `RenewLoop.RoomExactly` | internal/agent/renew/renewer.go:334-343 | a lifetime has that room exactly when the wait, an outage and a backoff together come before expiry |
| `RenewLoop.AbortsExactly` | cmd/cert-agentd/main.go:267-275 | the loop gives up exactly at an attempt that fails once the certificate has expired |
| `RenewLoop.DeadLoopAborts` | internal/agent/renew/renewer.go:302-330 | if certd never answers again, the loop gives up at the first attempt after expiry, within one backoff of it |
| `RenewLoop.OutageTolerated` | internal/agent/renew/renewer.go:302-343 | if certd answers from R on and R + backoff <= expiry, attempts fail only while certd is down and one succeeds before expiry without an abort |
| `RenewLoop.NeverLapses` | internal/agent/renew/renewer.go:302-343 | if every lifetime exceeds the minimum interval, an outage and a backoff, and the part of it left after the renewal fraction exceeds the last two, the loop never aborts and never holds an expired certificate, however long it runs |
| `RenewLoop.IssuanceStartsRun` | internal/agent/renew/renewer.go:334-343 | every issuance puts the loop in such a state |
| `RenewLoop.AbortedStays` | internal/agent/renew/renewer.go:302-330 | an aborted loop makes no further attempt |
| `X509Engine.BuildSound` | internal/server/x509engine/x509engine.go:168-188 | any certificate a builder returns has a CA issuer, a non-empty template window after the clamp, an expiry no later than its issuer's and the requested one, and is a CA only below an issuer that allows it, with path length 0 |
| `X509Engine.BuiltExactly` | internal/server/x509engine/x509engine.go:257-293 | which requests are signed, for each of the three kinds, and every field of what is signed |
| `X509Engine.RootExactly` | internal/server/x509engine/x509engine.go:319-353 | every field of a self-signed root: key, serial, a minute's back-dating, ten years, the path length asked |
| `X509Engine.ChainSound` | internal/server/x509engine/x509engine.go:319-430 | in every chain the builders can make, expiry never increases towards the leaf, every window is in order, all but the last are CAs, and the path-length rule of section 4.2.1.9 of RFC 5280 holds |
| `X509Engine.ChainDepth` | internal/server/x509engine/x509engine.go:404-430 | such a chain has at most three certificates and no CA below an intermediate |
| `X509Engine.LinkSound` | internal/server/x509engine/x509engine.go:257-293 | what each link of a chain guarantees |
| `X509Engine.NotAfterNonIncreasing` | internal/server/x509engine/x509engine.go:168-188 | expiry never increases between any two certificates of a chain |
| `X509Engine.RootWindow` | internal/server/x509engine/x509engine.go:319-353 | a self-signed root is a CA with a path length and an ordered window |
| `RoleIndex.BuildIndex` | internal/server/policy/policy.go:97-106 | the index maps every group to the order-preserving filter of the role list |
| `RoleIndex.InMemoryStore.constructor` | internal/server/policy/policy.go:97-106 | a new store holds the roles with an exact index |
| `RoleIndex.InMemoryStore.ReplaceAll` | internal/server/policy/policy.go:231-238 | swaps the list and keeps the index exact |
| `RoleIndex.InMemoryStore.Add` | internal/server/policy/policy.go:158-172 | appends exactly when the name is non-empty and new; index exact, names unique |
| `RoleIndex.InMemoryStore.Replace` | internal/server/policy/policy.go:178-205 | succeeds exactly when the old name exists and the new one is non-empty and free or the same; the role keeps its place |
| `RoleIndex.InMemoryStore.Delete` | internal/server/policy/policy.go:209-225 | removes the first role of the name, exactly when there is one |
| `RoleIndex.InMemoryStore.RolesForGroups` | internal/server/policy/policy.go:109-122 | returns, through the index alone, exactly the roles whose claim is among the groups |
| `RoleIndex.RolesForExact` | internal/server/policy/policy.go:109-122 | each role comes as often as the table holds it, however often its group is named |
| `RoleIndex.RolesForMembers` | internal/server/policy/policy.go:109-122 | membership of the result: the roles whose claim is among the groups |
| `RoleIndex.ForGroupConcat` | internal/server/policy/policy.go:97-106 | a group's roles stand in the list's order |
| `RoleIndex.RolesForConcat` | internal/server/policy/policy.go:109-122 | the roles of further groups follow in the order the groups are named |
| `RoleIndex.RolesForRepeated` | internal/server/policy/policy.go:109-122 | groups named again add nothing |
| `RoleIndex.FindName` | internal/server/policy/policy.go:134-143 | the first role of a name, or none |
| `Policy.TtlCap` | internal/server/policy/policy.go:447-467 | the cap over the roles with wrapping products |
| `Policy.MatchesAny` | internal/server/policy/policy.go:472-480 | whether some pattern matches, malformed ones not matching |
| `Policy.EvaluateUserCert` | internal/server/policy/policy.go:301-345 | the user decision: principals, TTL, extensions or the denial |
| `Policy.EvaluateHostCert` | internal/server/policy/policy.go:351-386 | the host decision |
| `Policy.EvaluateX509Cert` | internal/server/policy/policy.go:408-433 | the workload decision |
| `Decisions.UserExact` | internal/server/policy/policy.go:301-345 | granted if and only if some role matches and allows a requested principal; then exactly the allowed principals in order, the smaller of the TTL asked and the largest user cap, and each extension with the value of the last role that sets it |
| `Decisions.HostExact` | internal/server/policy/policy.go:351-386 | granted if and only if some role matches, every host pattern parses and one matches a requested name; then exactly the matched names in order, and the smaller of the TTL asked and the largest host cap |
| `Decisions.X509Exact` | internal/server/policy/policy.go:408-433 | granted if and only if some role matches, every SPIFFE pattern parses and one matches the URI; then for the smaller of the TTL asked and the largest X.509 cap |
| `Policy.UserUnion` | internal/server/policy/policy.go:301-345 | adding groups keeps every granted principal in order, never lowers the TTL, drops no extension key and never turns an approval into a denial |
| `Policy.HostUnion` | internal/server/policy/policy.go:351-386 | the same for host certificates, exactly while no role of the larger set holds a malformed pattern |
| `Policy.X509Union` | internal/server/policy/policy.go:408-433 | the same for the requested workload URI |
| `Policy.MalformedRefuses` | internal/server/policy/policy.go:351-433 | two roles, one with a malformed pattern: a caller granted a host name and a URI through the first is refused both on joining the second's group |
| `Policy.GrantsAreRequested` | internal/server/policy/policy.go:301-386 | what is granted is an order-preserving subsequence of what was asked |
| `Policy.MaxCapBounds` | internal/server/policy/policy.go:447-467 | how the cap relates to each role's and the endpoint's |
| `Policy.MaxCapWidens` | internal/server/policy/policy.go:447-467 | more roles never lower the cap |
| `Policy.CapExact` | internal/server/policy/policy.go:36-40 | a role's effective cap is the one it states exactly when the product does not wrap, or is too large and wraps to zero or at least the endpoint's cap; for non-negative seconds it never exceeds it |
| `Policy.CapIsStated` | internal/server/policy/policy.go:36-40 | without negative caps the cap over the roles is within what some role states |
| `Policy.WrappedCaps` | internal/server/policy/policy.go:447-467 | two caps that wrap to one hour, one stating no time at all and one no limit |
| `RoleTable.RoleStore.Add` | internal/store/sqlite/sqlite_roles.go:79-93 | inserts a row with its source exactly when the name is non-empty and new and the transaction does not fail, and otherwise changes nothing |
| `RoleTable.RoleStore.Replace` | internal/store/sqlite/sqlite_roles.go:98-124 | replaces or renames one row, never onto another, and on any error changes nothing |
| `RoleTable.RoleStore.Delete` | internal/store/sqlite/sqlite_roles.go:128-141 | removes one existing row, or on any error nothing |
| `RoleTable.AddedExactly` | internal/store/sqlite/sqlite_roles.go:79-93 | when an insert succeeds, the one row it adds and its source marker, and the error otherwise |
| `RoleTable.ReplacedExactly` | internal/store/sqlite/sqlite_roles.go:98-124 | when a replacement or rename succeeds, the row under the new name, the old name gone, all others kept, and the error otherwise |
| `Reconcile.DiffRoles` | internal/reconcile/reconcile.go:56-87 | the loops over file and table compute the plan: additions, updates, conflicts and orphans |
| `Reconcile.ApplyRoles` | internal/reconcile/reconcile.go:135-159 | the plan's writes in order up to the first that faults or is refused: the table those before it left, and their counts |
| `Reconcile.NoFaults` | internal/reconcile/reconcile.go:135-159 | without database faults that is the table and success of the whole plan's writes |
| `Reconcile.SameSetIsMultisetEquality` | internal/reconcile/reconcile.go:213-222 | sorting clones and comparing decides equality of multisets |
| `Reconcile.RoleEqualExactly` | internal/reconcile/reconcile.go:191-201 | roles are equal for reconcile if and only if every field is, the three lists as multisets |
| `Reconcile.CountsExactly` | internal/reconcile/reconcile.go:135-159 | the counts add up to the writes made, and updates and prunes are counted only after all additions and updates |
| `Reconcile.FailureStops` | internal/reconcile/reconcile.go:135-159 | after a failed write nothing more changes |
| `Convergence.Converges` | internal/reconcile/reconcile.go:56-159 | for a file with unique non-empty names, applying the diff never fails, leaves unadopted portal rows as they were, and the next diff writes nothing, whatever order the table is listed in |
| `Convergence.Resumes` | internal/reconcile/reconcile.go:135-159 | stopping after any number of writes and reconciling again reaches the table of the uninterrupted run |
| `Convergence.RunMeans` | internal/reconcile/reconcile.go:56-159 | after a run every file role the portal does not keep stands under its name, equal in every field; changed rows are as the file gives them and marked config; other names keep their rows, except those marked config when pruning |
| `Convergence.PlanExactly` | internal/reconcile/reconcile.go:56-87 | membership of all four lists of the plan in terms of file and table, and the order of the last two |
| `Convergence.SelectConcat` | internal/reconcile/reconcile.go:56-87 | additions and updates come in the file's order |
| `Convergence.AppliesExactly` | internal/reconcile/reconcile.go:135-159 | for any file, applying its diff succeeds if and only if the roles the table lacks have non-empty, different names |
| `AnyFile.ConvergesExactly` | internal/reconcile/reconcile.go:56-159 | for any file, applying its diff succeeds and the next diff writes nothing if and only if, besides, the file roles of each name that the portal does not keep are pairwise equal |
| `AnyFile.PlanLeaves` | internal/reconcile/reconcile.go:135-159 | the row a successful run leaves under each name, the last of several writes winning |
| `AnyFile.NextEmpty` | internal/reconcile/reconcile.go:56-87 | a diff has nothing to write exactly when every file role is unchanged or in conflict and, when pruning, no row is an orphan |
| `AnyFile.RepeatedRoleFails` | internal/reconcile/reconcile.go:135-159 | a new role given twice: the run stops at the second addition |
| `AnyFile.RepeatedRoleChurns` | internal/reconcile/reconcile.go:56-159 | an existing role given in two ways: the run succeeds and leaves an update for the next |
| `Convergence.ReachesGoal` | internal/reconcile/reconcile.go:56-159 | applying the diff takes every row to the goal that file, ownership and flags define for it |
| `Convergence.DiffIsRight` | internal/reconcile/reconcile.go:56-87 | the plan's writes are possible, touch different rows, and touch exactly the rows not at their goal |
| `Convergence.WritesReachGoal` | internal/store/sqlite/sqlite_roles.go:79-141 | after any such writes the rows written are at their goal and all others untouched |
| `Convergence.GoalIsFixed` | internal/reconcile/reconcile.go:56-87 | a row at its goal is its own goal |
| `Convergence.AddsSucceed` | internal/store/sqlite/sqlite_roles.go:79-93 | additions all succeed exactly when their names are new, non-empty and different |
| `Sorting.SortInPlace` | internal/server/portal/portal.go:972-978 | the in-place insertion sort leaves the sorted permutation of the strings |
| `Sorting.Sink` | internal/server/portal/portal.go:974-976 | one pass of the inner loop moves an element down to its place and shifts the others |
| `Sorting.SortStringsUnique` | internal/server/portal/portal.go:972-978 | there is only one sorted arrangement |
| `Sorting.LessExactly` | internal/server/portal/portal.go:972-978 | the order of strings is the dictionary's |
| `Krl.InMemoryStore.Revoke` | internal/server/krl/krl.go:93-109 | accepted exactly when a serial or key id is named; both indices follow the history, and a missing time is stamped |
| `Krl.InMemoryStore.IsRevoked` | internal/server/krl/krl.go:238-252 | true exactly when some past revocation named the serial or the key id |
| `Krl.InMemoryStore.Snapshot` | internal/server/krl/krl.go:114-140 | the live entries of both indices, once each, in order |
| `Krl.LookupExact` | internal/server/krl/krl.go:93-109 | overwriting index entries forgets no revoked serial or key id, over any history |
| `Krl.SnapshotAgrees` | internal/server/krl/krl.go:114-140 | looking a certificate up in a snapshot gives the store's answer, and each (serial, key id) pair is listed once |
| `Krl.SnapshotUnique` | internal/server/krl/krl.go:114-140 | a history has one snapshot: map iteration order cannot show |
| `Krl.SnapshotOrder` | internal/server/krl/krl.go:114-140 | a snapshot runs from oldest to newest, ties by serial and then by key id |
| `Krl.LatestHeld` | internal/server/krl/krl.go:93-109 | each index holds the latest revocation that named its key |
| `Krl.RevocationKeyInjective` | internal/server/krl/krl.go:257-259 | the deduplication key determines serial and key id, even for key ids holding bars and digits |
| `Krl.LiveDistinct` | internal/server/krl/krl.go:114-140 | two live entries with the same serial and key id are the same entry |
| `KrlSpec.MarshalSpec` | internal/server/krl/krl.go:172-219 | the file: header, then each group sorted with its comments, ties in some order |
| `KrlSpec.MarshalArranges` | internal/server/krl/krl.go:192-193 | the two groups are sorted permutations of the entries |
| `KrlSpec.Ascending` | internal/server/krl/krl.go:192-193 | serials ascend as numbers, key ids as in a dictionary |
| `KrlSpec.HeaderExactly` | internal/server/krl/krl.go:195-204 | the two header lines, and the line for an empty list |
| `KrlSpec.SerialsInOrder` | internal/server/krl/krl.go:206-211 | each serial entry in turn: a comment line if there is one, then its directive |
| `KrlSpec.KeyIDsInOrder` | internal/server/krl/krl.go:212-217 | the same for key ids |
| `KrlSpec.AnnotationExactly` | internal/server/krl/krl.go:223-235 | the comment of an entry, with or without reason and revoker; newlines of a reason become spaces and nothing else changes |
| `KrlSpec.ReadBack` | internal/server/krl/krl.go:172-235 | reading the directive lines with the model's reader gives exactly the serials ascending and then the key ids ascending, whatever the reasons hold and however ties are ordered, if and only if key ids are one line and no later line of a revoker is a directive |
| `KrlFile.FileAgreesExactly` | internal/server/krl/krl.go:172-252 | for every snapshot of every history, the file names a serial or key id exactly when `IsRevoked` says so, for all of them, if and only if key ids are one line and every directive a revoker plants is unreadable or names an entry |
| `KrlFile.ReadOrigin` | internal/server/krl/krl.go:194-219 | every directive read comes from an entry: its serial, a line of its key id, or a later line of its revoker |
| `KrlFile.ReadHas` | internal/server/krl/krl.go:194-219 | and every one of those is read |
| `KrlSpec.ReadRendered` | internal/server/krl/krl.go:194-219 | what any rendered file reads as, clean or not |
| `KrlSpec.AnnotationNoise` | internal/server/krl/krl.go:223-235 | only a revoker's own newlines reach the file; reasons cannot add a line |
| `KrlSpec.KeyIDPlants` | internal/server/krl/krl.go:212-217 | for every serial: a revocation of a key id whose second line is that serial's directive, and of nothing else, reads back as naming the serial, which the store does not call revoked |
| `KrlSpec.RevokerPlants` | internal/server/krl/krl.go:223-235 | the same for a revoker of two lines |
| `Decimal.SerialString` | internal/server/krl/krl.go:261-273 | the digits of the serial, written backwards into 20 bytes that are never underrun |
| `Decimal.DigitsDenote` | internal/server/krl/krl.go:261-273 | the digits denote the number and have no leading zero |
| `Decimal.ParseUint64Loop` | internal/server/portal/portal.go:713-726 | the reader's loop with its wrapping value and its overflow test |
| `Decimal.ParseExact` | internal/server/portal/portal.go:713-726 | on every string: refused exactly for a character that is no digit or a digit at which the number modulo 2^64 drops, and otherwise read as the number modulo 2^64 |
| `Decimal.OverflowExact` | internal/server/portal/portal.go:713-726 | a string of digits is read as its number if and only if that fits 64 bits, and one that does not fit is reported exactly when some digit makes the wrapped number drop |
| `Decimal.SerialRoundTrip` | internal/server/portal/portal.go:713-726 | every 64-bit serial survives writing and reading, with no false overflow |
| `Decimal.OverflowMissed` | internal/server/portal/portal.go:719-722 | twenty quintillion is reported as an overflow, thirty quintillion is accepted as another number |
| `RoleForm.SplitLines` | internal/server/portal/portal.go:881-892 | the trimmed non-empty lines in order |
| `RoleForm.ParseExtensions` | internal/server/portal/portal.go:897-919 | the map the lines build, or the first line with an empty key; the early return agrees with the loop |
| `RoleForm.ParseCaps` | internal/server/portal/portal.go:846-867 | each cap in turn, blank meaning zero, or the first that is no number or negative |
| `RoleForm.ParseRoleForm` | internal/server/portal/portal.go:813-877 | the role of a form, or its first error |
| `RoleFormCodec.FormParsedExactly` | internal/server/portal/portal.go:813-877 | which forms are accepted, and every field of the role |
| `RoleFormCodec.SecondsExactly` | internal/server/portal/portal.go:845-867 | a cap is read as the number its trimmed text stands for, and refused if and only if it is neither blank nor a non-negative 64-bit number, signed or not |
| `RoleFormCodec.KeptConcat` | internal/server/portal/portal.go:881-892 | list lines are read one by one, in order |
| `RoleFormCodec.KeptOne` | internal/server/portal/portal.go:881-892 | a line is trimmed, and dropped if blank |
| `RoleFormCodec.CutExactly` | internal/server/portal/portal.go:897-919 | an extension line is cut at its first '=' and both sides trimmed; without one it is a bare key |
| `RoleFormCodec.ExtensionsExactly` | internal/server/portal/portal.go:897-919 | extensions are refused if and only if some line that is not blank has an empty key, and otherwise have exactly the keys given |
| `RoleFormCodec.LastLineWins` | internal/server/portal/portal.go:897-919 | a key has the value of the last line that gives it |
| `RoleFormCodec.FormRefusedBecause` | internal/server/portal/portal.go:831-874 | the error shown is that of the first thing wrong: name, group, the caps in turn, the extensions |
| `RoleFormCodec.SecondsRefusedBecause` | internal/server/portal/portal.go:860-866 | which caps are called no number and which negative |
| `RoleFormCodec.ExtensionsRefusedBecause` | internal/server/portal/portal.go:909-912 | the line quoted is the first with an empty key |
| `RoleForm.ExtensionsToForm` | internal/server/portal/portal.go:946-967 | one line per key, in key order, whatever order the map yields them |
| `RoleForm.RenderingUnique` | internal/server/portal/portal.go:946-967 | the text is determined by the map |
| `RoleForm.RoleToForm` | internal/server/portal/portal.go:923-935 | every field of the filled-in form |
| `RoleFormCodec.ShownExactly` | internal/server/portal/portal.go:937-967 | the lines shown for extensions, bare where the value is empty, and that exactly a zero cap is shown blank |
| `RoleFormCodec.FormExact` | internal/server/portal/portal.go:813-967 | filling in a role and parsing it gives the role back if and only if it is canonical, which is if and only if some form parses to it |
| `RoleFormCodec.EditRoundTrip` | internal/server/portal/portal.go:921-935 | every accepted form, filled in again from its role, parses to the same role |
| `RoleFormCodec.ParsedIsCanonical` | internal/server/portal/portal.go:813-919 | everything the parser accepts is canonical |
| `RoleFormCodec.EntryRoundTrip` | internal/server/portal/portal.go:897-967 | an extension line gives back its key and value, also with an empty value or an '=' in the value |
| `RoleFormCodec.ExtensionsRoundTrip` | internal/server/portal/portal.go:897-967 | rendered extensions parse to the same map |
| `RoleFormCodec.LinesRoundTrip` | internal/server/portal/portal.go:881-892 | joined plain lines split into the same lines |
| `RoleFormCodec.SecondsRoundTrip` | internal/server/portal/portal.go:937-944 | a non-negative cap survives printing and parsing |
| `RoleFormCodec.SubmittedParses` | internal/server/portal/portal.go:1272-1304 | a form reads the same with the carriage returns a browser adds to its text areas |
| `Trimming.TrimDropsSpace` | internal/server/portal/portal.go:817 | trimming removes white space at the ends and nothing else |
| `Reloader.PemReloader.ReloadLocked` | cmd/certd/reload.go:75-90 | a reload replaces value and time together, or on any error neither |
| `Reloader.PemReloader.Get` | cmd/certd/reload.go:59-70 | returns the cached value on an unchanged time, and otherwise what a reload leaves |
| `Reloader.NewPemReloader` | cmd/certd/reload.go:47-53 | startup fails unless the first load succeeds |
| `Reloader.RunHolds` | cmd/certd/reload.go:59-90 | in every run the cache holds the parse of the last version read that passed, under the time of a version no later |
| `Reloader.FastPathIsPresent` | cmd/certd/reload.go:59-70 | with distinct modification times the fast path returns the parse of the present content, however the file changed between stat and read before |
| `Reloader.FastPathExact` | cmd/certd/reload.go:59-90 | every fast path of every run is up to date if and only if equal times never hide a differing parse |
| `Reloader.SameTimeServesStale` | cmd/certd/reload.go:59-70 | two versions under one time: the fast path returns the first while the file holds the second |
| `Reloader.AdoptsNewVersion` | cmd/certd/reload.go:59-90 | an undisturbed call adopts a new version that passes and otherwise keeps the cache |
| `Reloader.IssuerAcceptedExactly` | cmd/certd/reload.go:97-113 | a file is accepted as issuer if and only if it parses and carries the signing key, of a comparable type |
| `Reloader.IssuerRefresh` | cmd/certd/reload.go:59-113 | a re-minted issuer over the same key is taken up by the next undisturbed call, one over another key is not |
| `Reloader.Settles` | cmd/certd/reload.go:55-70 | once a version that stays is cached, every later call returns it, whichever system calls fail |
| `Reloader.IssuerKeyFixed` | cmd/certd/reload.go:97-113 | every issuer handed out in any run carries the signing key |

## Left out

- HTTP decoding, routing, TLS, OIDC, sessions, rate limiting, audit events and logging.
- Cryptography, PEM and DER, KMS and sealed keys; signatures are not modelled, only the fields they cover.
- SQL text, drivers, migrations and JSON columns: each statement is its effect on a map.
- The Postgres stores: the same statements as the SQLite ones, so the same model.
- The SQL revocation stores: they overwrite by other rules than the in-memory store and are not claimed to agree with it.
- Reconcile of principals: the same diff and apply over another record, which would repeat the role theorems.
- `mergeExtensions`, caller authentication and SAN lookup: each is settled by reading one branch.
- The SSH renewer, the trust-bundle and CA-key pollers: simpler copies of the workload renewer.
- HTML pages other than the fields of the role form, and what a browser does to single-line fields.
- `path.Match`: uninterpreted.
- Bytes that are not valid UTF-8 in strings.
- RenewalProtocol.NoSelfLock: attempts read the certificate file that exists; those that fail to are the subject of `BlindReads`, where the guarantee needs the clocks.
- Holders.HandoversBounded: holders persist every certificate they are given, one request is one step, and the recorded certificate is valid throughout.
- RenewLoop.OutageTolerated: calls take no time and the renewal fraction is an exact rational.
- RenewLoop.Run: the attempt after which the context is cancelled is given; a run that nothing ends is covered by `NeverLapses`, for every number of attempts.
- Reloader.RunHolds: each call's system calls are given as the versions they see; the mutex makes calls atomic towards one another.
