/** Concurrent sign requests: the guard's read and the later write are separate statements with
    no transaction around them, so any number of requests interleave freely. */
module LockSurvival {
  import opened Wrappers
  import opened X509Engine
  import opened ActiveCerts
  import opened SignX509

  /** What a request that has read its row goes on to write. */
  datatype Pending =
    | WillIssue(identity: string, previousSerial: string, previousNotAfter: Option<int>)
    | WillLock(identity: string, presented: string)

  /** `seen` are the request numbers handed out; each request has its own. */
  datatype World = World(rows: Table, pending: map<nat, Pending>, seen: set<nat>)

  datatype Event =
    | Get(id: nat, identity: string, presented: string, now: int)
    | Write(id: nat, now: int, minted: Result<Certificate, Refusal>, fails: bool)
    | Adopt(identity: string, serial: string)
    | Clear(identity: string)

  predicate Enabled(w: World, e: Event) {
    match e
    case Get(id, _, _, _) => id !in w.seen
    case Write(id, _, _, _) => id in w.pending
    case _ => true
  }

  function Step(w: World, e: Event): World
    requires Enabled(w, e)
  {
    match e
    case Get(id, identity, presented, now) =>
      var w' := w.(seen := w.seen + {id});
      (match Guard(RowOf(w.rows, identity), presented, now)
       case Proceed(serial, notAfter) => w'.(pending := w.pending[id := WillIssue(identity, serial, notAfter)])
       case Escalate => w'.(pending := w.pending[id := WillLock(identity, presented)])
       case _ => w')
    case Write(id, now, minted, fails) =>
      var p := w.pending[id];
      var row := RowOf(w.rows, p.identity);
      var written :=
        if fails then row
        else if p.WillLock? then LockStamped(row, now, p.presented)
        else if minted.Ok? then Some(Recorded(row, minted.value, p.previousSerial, p.previousNotAfter))
        else row;
      w.(rows := WithRow(w.rows, p.identity, written), pending := w.pending - {id})
    case Adopt(identity, serial) =>
      w.(rows := WithRow(w.rows, identity, GraceDropped(RowOf(w.rows, identity), serial)))
    case Clear(identity) => w.(rows := WithRow(w.rows, identity, None))
  }

  predicate ValidRun(w: World, es: seq<Event>)
    decreases |es|
  {
    es != [] ==> Enabled(w, es[0]) && ValidRun(Step(w, es[0]), es[1..])
  }

  function Run(w: World, es: seq<Event>): World
    requires ValidRun(w, es)
    decreases |es|
  {
    if es == [] then w else Run(Step(w, es[0]), es[1..])
  }

  /** The step returns a certificate for the identity. */
  predicate Issues(w: World, e: Event, identity: string)
    requires Enabled(w, e)
  {
    && e.Write? && !e.fails && e.minted.Ok?
    && w.pending[e.id].WillIssue? && w.pending[e.id].identity == identity
  }

  /** The requests served for the identity in a run, in order. */
  function Issuers(w: World, es: seq<Event>, identity: string): seq<nat>
    requires ValidRun(w, es)
    decreases |es|
  {
    if es == [] then []
    else (if Issues(w, es[0], identity) then [es[0].id] else []) + Issuers(Step(w, es[0]), es[1..], identity)
  }

  predicate IsLocked(w: World, identity: string) {
    identity in w.rows && w.rows[identity].Locked()
  }

  /** The requests for the identity that have passed the guard and not yet written. */
  function InFlight(w: World, identity: string): set<nat> {
    set id | id in w.pending && w.pending[id].WillIssue? && w.pending[id].identity == identity
  }

  predicate NotCleared(es: seq<Event>, identity: string) {
    forall i :: 0 <= i < |es| ==> es[i] != Clear(identity)
  }

  predicate Distinct(s: seq<nat>) {
    forall i, j :: 0 <= i < j < |s| ==> s[i] != s[j]
  }

  /** While locked, no step unlocks the row or lets a new request past the guard, and a served
      request leaves flight. */
  lemma LockedStep(w: World, e: Event, identity: string)
    requires w.pending.Keys <= w.seen && IsLocked(w, identity) && Enabled(w, e) && e != Clear(identity)
    ensures IsLocked(Step(w, e), identity) && Step(w, e).pending.Keys <= Step(w, e).seen
    ensures InFlight(Step(w, e), identity) <= InFlight(w, identity)
    ensures Issues(w, e, identity) ==> e.id in InFlight(w, identity) && e.id !in InFlight(Step(w, e), identity)
  {
  }

  /** A locked identity stays locked in every interleaving until an operator clears it, and the
      certificates issued after the lock belong to requests whose read came before it, at most
      one each. */
  lemma {:induction false} LockSurvives(w: World, es: seq<Event>, identity: string)
    requires w.pending.Keys <= w.seen && IsLocked(w, identity)
    requires ValidRun(w, es) && NotCleared(es, identity)
    ensures IsLocked(Run(w, es), identity)
    ensures forall id :: id in Issuers(w, es, identity) ==> id in InFlight(w, identity)
    ensures Distinct(Issuers(w, es, identity))
    ensures |Issuers(w, es, identity)| <= |InFlight(w, identity)|
    decreases |es|
  {
    if es != [] {
      var w1 := Step(w, es[0]);
      LockedStep(w, es[0], identity);
      LockSurvives(w1, es[1..], identity);
      if Issues(w, es[0], identity) {
        SubsetSize(InFlight(w1, identity), InFlight(w, identity) - {es[0].id});
      } else {
        SubsetSize(InFlight(w1, identity), InFlight(w, identity));
      }
    }
  }

  /** With nothing in between, the two statements are the one-step request of `SignStep`. */
  lemma AtomicRequest(w: World, id: nat, identity: string, presented: string, now: int, minted: Result<Certificate, Refusal>)
    requires w.pending.Keys <= w.seen && id !in w.seen
    ensures
      var w1 := Step(w, Get(id, identity, presented, now));
      var w2 := if id in w1.pending then Step(w1, Write(id, now, minted, false)) else w1;
      w2.rows == WithRow(w.rows, identity,
                         SignStep(RowOf(w.rows, identity), presented, now, minted, Faults(false, false, false)).0)
  {
    RowUntouched(w.rows, identity);
  }

  // -------------------------------------------------------------------------------------
  // What an ack drops, and what brings it back
  // -------------------------------------------------------------------------------------

  predicate RowAccepts(w: World, identity: string, serial: string) {
    identity in w.rows && w.rows[identity].Accepts(serial)
  }

  /** Some request in flight for the identity will write `serial` back as the previous one. */
  predicate Carried(w: World, identity: string, serial: string) {
    exists id :: id in InFlight(w, identity) && w.pending[id].previousSerial == serial
  }

  /** No certificate of the run is minted with `serial`: serials drawn are fresh. */
  predicate NotMinted(es: seq<Event>, serial: string) {
    forall i :: 0 <= i < |es| && es[i].Write? && es[i].minted.Ok? ==> es[i].minted.value.serial != serial
  }

  /** No run from here makes the row accept `serial`. */
  ghost predicate NeverAccepts(w: World, identity: string, serial: string) {
    forall es :: ValidRun(w, es) && NotMinted(es, serial) ==> !RowAccepts(Run(w, es), identity, serial)
  }

  /** A serial the row does not accept, and no request in flight carries, stays that way. */
  lemma StaysDropped(w: World, e: Event, identity: string, serial: string)
    requires Enabled(w, e) && serial != "" && NotMinted([e], serial)
    requires !RowAccepts(w, identity, serial) && !Carried(w, identity, serial)
    ensures !RowAccepts(Step(w, e), identity, serial) && !Carried(Step(w, e), identity, serial)
  {
    assert [e][0] == e;
    var w' := Step(w, e);
    forall id | id in InFlight(w', identity) ensures w'.pending[id].previousSerial != serial {
      assert id in InFlight(w, identity) || (e.Get? && e.id == id);
    }
  }

  lemma {:induction false} RunStaysDropped(w: World, es: seq<Event>, identity: string, serial: string)
    requires ValidRun(w, es) && serial != "" && NotMinted(es, serial)
    requires !RowAccepts(w, identity, serial) && !Carried(w, identity, serial)
    ensures !RowAccepts(Run(w, es), identity, serial)
    decreases |es|
  {
    if es != [] {
      assert NotMinted([es[0]], serial) && NotMinted(es[1..], serial);
      StaysDropped(w, es[0], identity, serial);
      RunStaysDropped(Step(w, es[0]), es[1..], identity, serial);
    }
  }

  /** A serial that the row does not accept is never accepted again, in any run of reads, writes,
      acks and clears of any number of requests, if and only if no request in flight carries it. */
  lemma NeverBackExactly(w: World, identity: string, serial: string)
    requires serial != "" && !RowAccepts(w, identity, serial)
    ensures NeverAccepts(w, identity, serial) <==> !Carried(w, identity, serial)
  {
    if Carried(w, identity, serial) {
      var id :| id in InFlight(w, identity) && w.pending[id].previousSerial == serial;
      var e := Write(id, 0, Ok(Certificate(serial + "0", 0, 0, 0, false, Unlimited)), false);
      assert |serial + "0"| != |serial|;
      Unfold(w, e, []);
      assert [e] + [] == [e] && NotMinted([e], serial) && RowAccepts(Run(w, [e]), identity, serial);
    } else {
      forall es | ValidRun(w, es) && NotMinted(es, serial) ensures !RowAccepts(Run(w, es), identity, serial) {
        RunStaysDropped(w, es, identity, serial);
      }
    }
  }

  /** So an ack that takes effect is final, for the serial it drops, exactly if no request that read
      before it has yet to write that serial back. */
  lemma AckFinalExactly(w: World, identity: string)
    requires identity in w.rows && !w.rows[identity].Locked()
    requires w.rows[identity].previousSerial != "" && w.rows[identity].previousSerial != w.rows[identity].currentSerial
    ensures
      var row := w.rows[identity];
      NeverAccepts(Step(w, Adopt(identity, row.currentSerial)), identity, row.previousSerial)
      <==> !Carried(w, identity, row.previousSerial)
  {
    var row := w.rows[identity];
    var w' := Step(w, Adopt(identity, row.currentSerial));
    assert InFlight(w', identity) == InFlight(w, identity);
    NeverBackExactly(w', identity, row.previousSerial);
  }

  lemma {:induction false} Unfold(w: World, e: Event, rest: seq<Event>)
    requires Enabled(w, e) && ValidRun(Step(w, e), rest)
    ensures ValidRun(w, [e] + rest) && Run(w, [e] + rest) == Run(Step(w, e), rest)
  {
    assert ([e] + rest)[0] == e && ([e] + rest)[1..] == rest;
  }

  /** It does happen: two requests present one accepted serial and both read; the first writes, its
      certificate's ack drops the serial, and the second's write brings it back. */
  lemma {:induction false} RaceRevives(w: World, identity: string, serial: string, i: nat, j: nat, now: int, a: Certificate, b: Certificate)
    requires w.pending.Keys <= w.seen && i !in w.seen && j !in w.seen && i != j
    requires RowAccepts(w, identity, serial) && !w.rows[identity].Locked() && a.serial != serial
    ensures
      var dropped := [Get(i, identity, serial, now), Get(j, identity, serial, now), Write(i, now, Ok(a), false), Adopt(identity, a.serial)];
      var back := Write(j, now, Ok(b), false);
      && ValidRun(w, dropped) && !RowAccepts(Run(w, dropped), identity, serial)
      && Enabled(Run(w, dropped), back) && RowAccepts(Step(Run(w, dropped), back), identity, serial)
  {
    var e0, e1 := Get(i, identity, serial, now), Get(j, identity, serial, now);
    var e2, e3 := Write(i, now, Ok(a), false), Adopt(identity, a.serial);
    var w2 := Step(Step(w, e0), e1);
    assert w2.rows == w.rows && i in w2.pending && j in w2.pending;
    var w3 := Step(w2, e2);
    Unfold(w3, e3, []);
    Unfold(w2, e2, [e3]);
    Unfold(Step(w, e0), e1, [e2, e3]);
    Unfold(w, e0, [e1, e2, e3]);
    assert [e3] + [] == [e3] && [e2] + [e3] == [e2, e3] && [e1] + [e2, e3] == [e1, e2, e3] && [e0] + [e1, e2, e3] == [e0, e1, e2, e3];
  }
}
