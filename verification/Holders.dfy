/** Any number of holders of one recorded serial, each persisting what it is issued, and each
    presenting nothing once its own certificate has expired: who can still renew, how often the
    identity can change hands, and when the guard must have locked. */
module Holders {
  import opened Wrappers
  import opened X509Engine
  import opened ActiveCerts
  import opened SignX509
  import opened Agent

  /** The certificate a holder has on disk, and how often it was issued one. */
  datatype Holder = Holder(cert: Certificate, renewals: nat)

  /** `owner` is the holder last issued to, and `handovers` how often that changed. */
  datatype World = World(
    row: ActiveCert,
    holders: map<nat, Holder>,
    owner: Option<nat>,
    handovers: nat,
    used: set<string>)

  /** `clock` is the holder's own clock, `now` certd's. */
  datatype Event = Renew(holder: nat, clock: int, now: int, cert: Certificate) | Adopt(serial: string)

  const NO_FAULTS := Faults(false, false, false)

  /** Fresh serials, the recorded certificate still valid, nothing cleared by an operator. */
  predicate Enabled(w: World, e: Event) {
    e.Renew? ==> e.holder in w.holders && e.cert.serial !in w.used && e.now <= w.row.currentNotAfter
  }

  /** The serial a holder presents: none once its own certificate has expired by its clock. */
  function Presented(w: World, h: nat, clock: int): string
    requires h in w.holders
  {
    ReadCurrentSerial(Holds(w.holders[h].cert), clock)
  }

  function Step(w: World, e: Event): World
    requires Enabled(w, e)
  {
    match e
    case Adopt(serial) => w.(row := GraceDropped(Some(w.row), serial).value)
    case Renew(h, clock, now, cert) =>
      var (row, reply) := SignStep(Some(w.row), Presented(w, h, clock), now, Ok(cert), NO_FAULTS);
      if reply.Err? then w.(row := row.value) else Served(w, h, row.value, cert)
  }

  /** The bookkeeping of an issuance of `cert` to `h`, which left `row`. */
  function Served(w: World, h: nat, row: ActiveCert, cert: Certificate): World
    requires h in w.holders
  {
    World(row,
          w.holders[h := Holder(cert, w.holders[h].renewals + 1)],
          Some(h),
          if w.owner.Some? && w.owner.value != h then w.handovers + 1 else w.handovers,
          w.used + {cert.serial})
  }

  ghost predicate ValidRun(w: World, es: seq<Event>)
    decreases |es|
  {
    es != [] ==> Enabled(w, es[0]) && ValidRun(Step(w, es[0]), es[1..])
  }

  ghost function Run(w: World, es: seq<Event>): World
    requires ValidRun(w, es)
    decreases |es|
  {
    if es == [] then w else Run(Step(w, es[0]), es[1..])
  }

  /** 1 for a renewal of `h` that presents a serial. */
  function Claims(w: World, e: Event, h: nat): nat
    requires Enabled(w, e)
  {
    if e.Renew? && e.holder == h && Presented(w, h, e.clock) != "" then 1 else 0
  }

  /** How often a holder presented a serial in a run. */
  ghost function Claimed(w: World, es: seq<Event>, h: nat): nat
    requires ValidRun(w, es)
    decreases |es|
  {
    if es == [] then 0 else Claims(w, es[0], h) + Claimed(Step(w, es[0]), es[1..], h)
  }

  /** All holders start from the same serial, which the unlocked row accepts. */
  predicate Shared(w: World, serial: string) {
    && w.row.Accepts(serial) && !w.row.Locked()
    && w.owner == None && w.handovers == 0
    && (forall h :: h in w.holders ==> w.holders[h].cert.serial == serial && w.holders[h].renewals == 0)
    && {"", serial, w.row.currentSerial, w.row.previousSerial} <= w.used
  }

  predicate Superseded(w: World, h: nat) {
    h in w.holders && !w.row.Accepts(w.holders[h].cert.serial)
  }

  /** A superseded holder presents its serial. */
  predicate Offends(w: World, e: Event)
    requires Enabled(w, e)
  {
    e.Renew? && Superseded(w, e.holder) && Presented(w, e.holder, e.clock) != ""
  }

  ghost predicate Offended(w: World, es: seq<Event>)
    requires ValidRun(w, es)
    decreases |es|
  {
    es != [] && (Offends(w, es[0]) || Offended(Step(w, es[0]), es[1..]))
  }

  // -------------------------------------------------------------------------------------
  // The invariant while the row is unlocked
  // -------------------------------------------------------------------------------------

  /** Only an unserved holder still has the shared serial; a served one that lost the identity
      has neither of the row's serials and was served once. */
  predicate HolderOk(w: World, h: nat, serial: string)
    requires h in w.holders
  {
    var x := w.holders[h];
    && x.cert.serial in w.used && x.cert.serial != ""
    && (x.cert.serial == serial <==> x.renewals == 0)
    && (w.owner.None? ==> x.renewals == 0)
    && (w.owner.Some? && w.owner.value != h ==>
          && x.renewals <= 1
          && x.cert.serial != w.row.currentSerial
          && (x.renewals == 1 ==> x.cert.serial != w.row.previousSerial))
  }

  /** The owner has the current serial. Served once, it rotated from the shared one, which is
      the previous serial until an ack drops it; served twice, it has rotated past it. */
  predicate OwnerOk(w: World, serial: string) {
    match w.owner
    case None => serial == w.row.currentSerial || w.row.previousSerial in {serial, ""}
    case Some(o) =>
      && o in w.holders
      && w.holders[o].renewals > 0
      && w.holders[o].cert.serial == w.row.currentSerial
      && (w.holders[o].renewals == 1 ==> w.row.previousSerial in {serial, ""})
      && (w.holders[o].renewals > 1 ==> w.row.previousSerial != serial)
  }

  predicate Invariant(w: World, serial: string) {
    && serial != ""
    && {"", serial, w.row.currentSerial, w.row.previousSerial} <= w.used
    && OwnerOk(w, serial)
    && forall h :: h in w.holders ==> HolderOk(w, h, serial)
  }

  /** The holders issued at least one certificate. */
  function Issued(w: World): set<nat> {
    set h | h in w.holders && w.holders[h].renewals > 0
  }

  /** Each change of hands serves a holder for the first time. */
  predicate Counted(w: World) {
    && (w.owner.None? ==> w.handovers == 0)
    && |Issued(w)| == if w.owner.None? then 0 else w.handovers + 1
  }

  /** Issuing a fresh serial to a holder whose serial was accepted. */
  lemma ServedKeepsInvariant(w: World, h: nat, row: ActiveCert, cert: Certificate, serial: string)
    requires Invariant(w, serial) && h in w.holders && w.row.Accepts(w.holders[h].cert.serial)
    requires row.currentSerial == cert.serial && cert.serial !in w.used && row.previousSerial == w.holders[h].cert.serial
    ensures Invariant(Served(w, h, row, cert), serial)
    ensures w.owner.Some? && w.owner.value != h ==> h !in Issued(w)
  {
    var w' := Served(w, h, row, cert);
    assert HolderOk(w, h, serial);
    forall k | k in w'.holders ensures HolderOk(w', k, serial) {
      assert HolderOk(w, k, serial);
    }
  }

  lemma ServedKeepsCount(w: World, h: nat, row: ActiveCert, cert: Certificate)
    requires Counted(w) && h in w.holders
    requires w.owner.Some? ==> w.owner.value in Issued(w) && (w.owner.value != h ==> h !in Issued(w))
    ensures Counted(Served(w, h, row, cert))
  {
    assert Issued(Served(w, h, row, cert)) == Issued(w) + {h};
    if w.owner == Some(h) {
      assert Issued(w) + {h} == Issued(w);
    } else if w.owner.None? {
      assert Issued(w) + {h} == {h};
    }
  }

  lemma AdoptKeepsInvariant(w: World, s: string, serial: string)
    requires Invariant(w, serial)
    ensures Invariant(Step(w, Adopt(s)), serial)
  {
    var w' := Step(w, Adopt(s));
    forall k | k in w'.holders ensures HolderOk(w', k, serial) {
      assert HolderOk(w, k, serial);
    }
  }

  /** A renewal that does not lock: an accepted serial is rotated, and none presented changes
      nothing. */
  lemma RenewOutcome(w: World, e: Event)
    requires Enabled(w, e) && e.Renew? && !w.row.Locked() && !Step(w, e).row.Locked()
    ensures
      if Presented(w, e.holder, e.clock) == "" then Step(w, e) == w
      else
        var row := Step(w, e).row;
        && Step(w, e) == Served(w, e.holder, row, e.cert) && w.row.Accepts(w.holders[e.holder].cert.serial)
        && row.currentSerial == e.cert.serial && row.previousSerial == w.holders[e.holder].cert.serial
  {
  }

  /** One step that does not lock: the invariant stays, and a renewal was issued if it presented
      a serial, and otherwise changed nothing. */
  lemma StepKeepsInvariant(w: World, e: Event, serial: string, h: nat)
    requires Invariant(w, serial) && Counted(w)
    requires Enabled(w, e) && !w.row.Locked() && !Step(w, e).row.Locked()
    ensures Invariant(Step(w, e), serial) && Counted(Step(w, e))
    ensures Step(w, e).holders.Keys == w.holders.Keys
    ensures h in w.holders ==> Step(w, e).holders[h].renewals == w.holders[h].renewals + Claims(w, e, h)
  {
    if e.Renew? {
      RenewOutcome(w, e);
      if Presented(w, e.holder, e.clock) != "" {
        ServedKeepsInvariant(w, e.holder, Step(w, e).row, e.cert, serial);
        ServedKeepsCount(w, e.holder, Step(w, e).row, e.cert);
      }
    } else {
      AdoptKeepsInvariant(w, e.serial, serial);
    }
  }

  /** A locked row serves nobody: it stays locked, and the identity stays where it is. */
  lemma {:induction false} LockPersists(w: World, es: seq<Event>)
    requires ValidRun(w, es) && w.row.Locked()
    ensures Run(w, es) == w
    decreases |es|
  {
    if es != [] {
      LockPersists(Step(w, es[0]), es[1..]);
    }
  }

  /** A renewal that presents a serial is issued unless it locks; so while unlocked, the serials
      presented and the renewals agree. */
  lemma {:induction false} RunKeepsInvariant(w: World, es: seq<Event>, serial: string, h: nat)
    requires Invariant(w, serial) && Counted(w)
    requires ValidRun(w, es) && !w.row.Locked() && !Run(w, es).row.Locked() && h in w.holders
    ensures Invariant(Run(w, es), serial) && Counted(Run(w, es)) && Run(w, es).holders.Keys == w.holders.Keys
    ensures Run(w, es).holders[h].renewals == w.holders[h].renewals + Claimed(w, es, h)
    decreases |es|
  {
    if es != [] {
      var w1 := Step(w, es[0]);
      if w1.row.Locked() {
        LockPersists(w1, es[1..]);
        assert false;
      } else {
        StepKeepsInvariant(w, es[0], serial, h);
        RunKeepsInvariant(w1, es[1..], serial, h);
      }
    }
  }

  lemma SharedIsInvariant(w: World, serial: string)
    requires Shared(w, serial)
    ensures Invariant(w, serial) && Counted(w)
  {
    assert Issued(w) == {};
  }

  // -------------------------------------------------------------------------------------
  // The theorems
  // -------------------------------------------------------------------------------------

  lemma CountBoundsHandovers(w: World)
    requires Counted(w)
    ensures w.handovers == 0 || w.handovers < |w.holders|
  {
    SubsetSize(Issued(w), w.holders.Keys);
    assert |w.holders.Keys| == |w.holders|;
  }

  lemma {:induction false} HandoversFrom(w: World, es: seq<Event>, serial: string)
    requires Invariant(w, serial) && Counted(w) && ValidRun(w, es) && !w.row.Locked()
    ensures Run(w, es).handovers == 0 || Run(w, es).handovers < |w.holders|
    decreases |es|
  {
    CountBoundsHandovers(w);
    if es != [] {
      var w1 := Step(w, es[0]);
      if w1.row.Locked() {
        LockPersists(w1, es[1..]);
      } else {
        StepKeepsInvariant(w, es[0], serial, 0);
        HandoversFrom(w1, es[1..], serial);
        assert |w1.holders| == |w1.holders.Keys| == |w.holders|;
      }
    }
  }

  /** In every interleaving of renewals and acks, whether or not it ends in the lock, the identity
      changes hands less often than there are holders: at most once between two. */
  lemma {:induction false} HandoversBounded(w: World, es: seq<Event>, serial: string)
    requires Shared(w, serial) && ValidRun(w, es)
    ensures Run(w, es).handovers == 0 || Run(w, es).handovers < |w.holders|
  {
    SharedIsInvariant(w, serial);
    HandoversFrom(w, es, serial);
  }

  /** A renewal locks exactly when its holder is superseded and its own certificate has not expired
      by its clock; one that has expired changes nothing at all. */
  lemma RenewLocksExactly(w: World, h: nat, clock: int, now: int, cert: Certificate)
    requires Enabled(w, Renew(h, clock, now, cert)) && !w.row.Locked() && w.holders[h].cert.serial != ""
    ensures Step(w, Renew(h, clock, now, cert)).row.Locked() <==> Superseded(w, h) && clock <= w.holders[h].cert.notAfter
    ensures clock > w.holders[h].cert.notAfter ==> Step(w, Renew(h, clock, now, cert)) == w
  {
  }

  /** While nobody has been served, the holders are superseded only if the shared serial was the
      previous one and an ack dropped it. After that the owner never is, and another holder is
      exactly if it has been served itself, or the owner has renewed again, or the owner's ack
      dropped the grace. */
  lemma {:induction false} SupersededExactly(w: World, es: seq<Event>, serial: string, h: nat)
    requires Shared(w, serial) && ValidRun(w, es) && h in w.holders && !Run(w, es).row.Locked()
    ensures
      var w' := Run(w, es);
      && h in w'.holders && (w'.owner.Some? ==> w'.owner.value in w'.holders)
      && (Superseded(w', h) <==>
            match w'.owner
            case None => w'.row.currentSerial != serial && w'.row.previousSerial == ""
            case Some(o) => o != h && (w'.holders[h].renewals > 0 || w'.holders[o].renewals > 1 || w'.row.previousSerial == ""))
  {
    SharedIsInvariant(w, serial);
    RunKeepsInvariant(w, es, serial, h);
    assert HolderOk(Run(w, es), h, serial);
  }

  /** Over every run: the identity is locked exactly if some superseded holder presented its
      serial while its own certificate was valid. */
  lemma {:induction false} LockedExactly(w: World, es: seq<Event>, serial: string)
    requires Shared(w, serial) && ValidRun(w, es)
    ensures Run(w, es).row.Locked() <==> Offended(w, es)
  {
    SharedIsInvariant(w, serial);
    LockedFrom(w, es, serial);
  }

  lemma {:induction false} LockedFrom(w: World, es: seq<Event>, serial: string)
    requires Invariant(w, serial) && Counted(w) && ValidRun(w, es) && !w.row.Locked()
    ensures Run(w, es).row.Locked() <==> Offended(w, es)
    decreases |es|
  {
    if es != [] {
      var w1 := Step(w, es[0]);
      if es[0].Renew? {
        assert HolderOk(w, es[0].holder, serial);
        RenewLocksExactly(w, es[0].holder, es[0].clock, es[0].now, es[0].cert);
      }
      assert w1.row.Locked() <==> Offends(w, es[0]);
      if w1.row.Locked() {
        LockPersists(w1, es[1..]);
      } else {
        StepKeepsInvariant(w, es[0], serial, 0);
        LockedFrom(w1, es[1..], serial);
      }
    }
  }

  /** Detection: whatever the order of renewals and acks, the identity is locked by the time two
      of its holders have each presented a serial twice. */
  lemma {:induction false} TwoHoldersDetected(w: World, es: seq<Event>, serial: string, h: nat, k: nat)
    requires Shared(w, serial) && ValidRun(w, es) && h in w.holders && k in w.holders && h != k
    requires Claimed(w, es, h) >= 2 && Claimed(w, es, k) >= 2
    ensures Run(w, es).row.Locked()
  {
    SharedIsInvariant(w, serial);
    if !Run(w, es).row.Locked() {
      RunKeepsInvariant(w, es, serial, h);
      RunKeepsInvariant(w, es, serial, k);
      OnlyOwnerTwice(Run(w, es), serial, h, k);
    }
  }

  lemma OnlyOwnerTwice(w: World, serial: string, h: nat, k: nat)
    requires Invariant(w, serial) && h in w.holders && k in w.holders && h != k
    ensures w.holders[h].renewals < 2 || w.holders[k].renewals < 2
  {
    assert HolderOk(w, h, serial) && HolderOk(w, k, serial);
  }

  // -------------------------------------------------------------------------------------
  // The holder that is not detected
  // -------------------------------------------------------------------------------------

  /** The run without the renewals of `h`. */
  function Without(es: seq<Event>, h: nat): seq<Event> {
    if es == [] then []
    else (if es[0].Renew? && es[0].holder == h then [] else [es[0]]) + Without(es[1..], h)
  }

  /** A holder that never presents a serial leaves no trace: the run is the one without it, however
      often it tries. */
  lemma {:induction false} ExpiredUnseen(w: World, es: seq<Event>, h: nat)
    requires ValidRun(w, es) && Claimed(w, es, h) == 0
    ensures ValidRun(w, Without(es, h)) && Run(w, Without(es, h)) == Run(w, es)
    decreases |es|
  {
    if es != [] {
      ExpiredUnseen(Step(w, es[0]), es[1..], h);
      if es[0].Renew? && es[0].holder == h {
        assert Step(w, es[0]) == w && Without(es, h) == [] + Without(es[1..], h) == Without(es[1..], h);
      } else {
        var rest := Without(es[1..], h);
        assert ([es[0]] + rest)[0] == es[0] && ([es[0]] + rest)[1..] == rest;
      }
    }
  }

  lemma {:induction false} Unfold(w: World, e: Event, rest: seq<Event>)
    requires Enabled(w, e) && ValidRun(Step(w, e), rest)
    ensures ValidRun(w, [e] + rest) && Run(w, [e] + rest) == Run(Step(w, e), rest)
  {
    assert ([e] + rest)[0] == e && ([e] + rest)[1..] == rest;
  }

  /** It does happen: one holder renews twice, and the other, by then superseded, tries twice after
      its own certificate has expired. Nothing is locked. */
  lemma {:induction false} ExpiredCloneMissed(w: World, serial: string, h: nat, k: nat, a: Certificate, b: Certificate,
                                              spare: Certificate, now: int, late: int)
    requires Shared(w, serial) && h in w.holders && k in w.holders && h != k
    requires a.serial !in w.used && b.serial !in w.used + {a.serial} && spare.serial !in w.used + {a.serial, b.serial}
    requires now <= w.row.currentNotAfter && now <= a.notAfter && now <= b.notAfter
    requires now <= w.holders[h].cert.notAfter && w.holders[k].cert.notAfter < late
    ensures
      var es := [Renew(h, now, now, a), Renew(h, now, now, b), Renew(k, late, now, spare), Renew(k, late, now, spare)];
      ValidRun(w, es) && Superseded(Run(w, es), k) && !Run(w, es).row.Locked()
  {
    var e0, e1, late0 := Renew(h, now, now, a), Renew(h, now, now, b), Renew(k, late, now, spare);
    var w2 := Step(Step(w, e0), e1);
    assert w2.row.currentSerial == b.serial && w2.row.previousSerial == a.serial && w2.holders[k] == w.holders[k];
    assert Step(w2, late0) == w2;
    Unfold(w2, late0, []);
    Unfold(w2, late0, [late0]);
    Unfold(Step(w, e0), e1, [late0, late0]);
    Unfold(w, e0, [e1, late0, late0]);
    assert [late0] + [] == [late0] && [late0] + [late0] == [late0, late0] && [e1] + [late0, late0] == [e1, late0, late0];
    assert [e0] + [e1, late0, late0] == [e0, e1, late0, late0];
  }
}
