/** The issuer certificate's hot reload: a parsed file cached by modification time. */
module Reloader {
  import opened Wrappers
  import X = X509Engine

  type Bytes = seq<int>

  /** One content of the file. Replacement is atomic: a read sees one version whole. */
  datatype Version = Version(mtime: int, content: Bytes)

  datatype Cache<T> = Cache(modTime: int, val: T)

  // -------------------------------------------------------------------------------------
  // One call, on what the operating system answered
  // -------------------------------------------------------------------------------------

  /** `reloadLocked`: any failure keeps the cache. */
  function Reloaded<T>(load: Bytes -> Option<T>, stat: Option<int>, data: Option<Bytes>): Option<Cache<T>> {
    if stat.None? || data.None? || load(data.value).None? then None
    else Some(Cache(stat.value, load(data.value).value))
  }

  function Got<T>(load: Bytes -> Option<T>, c: Cache<T>, stat: Option<int>, again: Option<int>, data: Option<Bytes>): Cache<T> {
    if stat == Some(c.modTime) then c
    else
      var reloaded := Reloaded(load, again, data);
      if reloaded.Some? then reloaded.value else c
  }

  class PemReloader<T> {
    const load: Bytes -> Option<T>
    var modTime: int
    var val: T

    ghost function Contents(): Cache<T>
      reads this
    {
      Cache(modTime, val)
    }

    constructor (load: Bytes -> Option<T>, stat: int, data: Bytes)
      requires load(data).Some?
      ensures this.load == load && Some(Contents()) == Reloaded(load, Some(stat), Some(data))
    {
      this.load := load;
      modTime := stat;
      val := load(data).value;
    }

    method ReloadLocked(stat: Option<int>, data: Option<Bytes>) returns (ok: bool)
      modifies this
      ensures ok == Reloaded(load, stat, data).Some?
      ensures Contents() == if ok then Reloaded(load, stat, data).value else old(Contents())
    {
      if stat.None? {
        return false;
      }
      if data.None? {
        return false;
      }
      var v := load(data.value);
      if v.None? {
        return false;
      }
      val, modTime := v.value, stat.value;
      return true;
    }

    method Get(stat: Option<int>, again: Option<int>, data: Option<Bytes>) returns (v: T)
      modifies this
      ensures Contents() == Got(load, old(Contents()), stat, again, data) && v == val
    {
      if stat.Some? && stat.value == modTime {
        return val;
      }
      var ok := ReloadLocked(again, data);
      v := val;
    }
  }

  /** `newPEMReloader`: fails unless the first load succeeds. */
  method NewPemReloader<T>(load: Bytes -> Option<T>, stat: Option<int>, data: Option<Bytes>) returns (r: Option<PemReloader<T>>)
    ensures r.Some? <==> Reloaded(load, stat, data).Some?
    ensures r.Some? ==> fresh(r.value) && r.value.load == load && Some(r.value.Contents()) == Reloaded(load, stat, data)
  {
    if stat.None? || data.None? || load(data.value).None? {
      return None;
    }
    var reloader := new PemReloader(load, stat.value, data.value);
    r := Some(reloader);
  }

  // -------------------------------------------------------------------------------------
  // Runs against a file that changes underneath
  // -------------------------------------------------------------------------------------

  /** A system call: the version current at that moment, and whether the call failed (the file
      being absent or unreadable). */
  datatype Glance = Glance(at: nat, fails: bool)

  datatype Call = Call(stat: Glance, again: Glance, read: Glance)

  type History = seq<Version>

  /** Calls look at versions in the order the file goes through them, from `from` on. */
  predicate Ordered(h: History, from: nat, calls: seq<Call>) {
    calls == [] ||
    (var last := calls[|calls| - 1];
     && Ordered(h, from, calls[..|calls| - 1])
     && Latest(from, calls[..|calls| - 1]) <= last.stat.at <= last.again.at <= last.read.at < |h|)
  }

  /** The version current when the calls are done. */
  function Latest(from: nat, calls: seq<Call>): nat {
    if calls == [] then from else calls[|calls| - 1].read.at
  }

  predicate InHistory(h: History, call: Call) {
    call.stat.at < |h| && call.again.at < |h| && call.read.at < |h|
  }

  function Mtime(h: History, g: Glance): Option<int>
    requires g.at < |h|
  {
    if g.fails then None else Some(h[g.at].mtime)
  }

  function Content(h: History, g: Glance): Option<Bytes>
    requires g.at < |h|
  {
    if g.fails then None else Some(h[g.at].content)
  }

  function Step<T>(load: Bytes -> Option<T>, h: History, c: Cache<T>, call: Call): Cache<T>
    requires InHistory(h, call)
  {
    Got(load, c, Mtime(h, call.stat), Mtime(h, call.again), Content(h, call.read))
  }

  function After<T>(load: Bytes -> Option<T>, h: History, c: Cache<T>, calls: seq<Call>): Cache<T>
    requires forall i :: 0 <= i < |calls| ==> InHistory(h, calls[i])
  {
    if calls == [] then c
    else Step(load, h, After(load, h, c, calls[..|calls| - 1]), calls[|calls| - 1])
  }

  /** The first stat of the call sees the cached time. */
  predicate FastPath<T>(h: History, c: Cache<T>, call: Call)
    requires InHistory(h, call)
  {
    Mtime(h, call.stat) == Some(c.modTime)
  }

  /** The call read a version that passed the check. */
  predicate Accepts<T>(load: Bytes -> Option<T>, h: History, c: Cache<T>, call: Call)
    requires InHistory(h, call)
  {
    && !FastPath(h, c, call) && !call.again.fails && !call.read.fails
    && load(h[call.read.at].content).Some?
  }

  /** The last version read that passed the check, `start` being the one read at startup. */
  function LastAccepted<T>(load: Bytes -> Option<T>, h: History, c: Cache<T>, start: nat, calls: seq<Call>): nat
    requires forall i :: 0 <= i < |calls| ==> InHistory(h, calls[i])
  {
    if calls == [] then start
    else
      var front, call := calls[..|calls| - 1], calls[|calls| - 1];
      if Accepts(load, h, After(load, h, c, front), call) then call.read.at
      else LastAccepted(load, h, c, start, front)
  }

  /** The cache after startup, whose stat saw version `b` and whose read saw version `r`. */
  ghost predicate Booted<T>(load: Bytes -> Option<T>, h: History, c: Cache<T>, b: nat, r: nat) {
    b <= r < |h| && load(h[r].content).Some? && c == Cache(h[b].mtime, load(h[r].content).value)
  }

  lemma {:induction false} OrderedInHistory(h: History, from: nat, calls: seq<Call>)
    requires Ordered(h, from, calls)
    ensures forall i :: 0 <= i < |calls| ==> InHistory(h, calls[i])
    ensures from <= Latest(from, calls)
  {
    if calls != [] {
      OrderedInHistory(h, from, calls[..|calls| - 1]);
    }
  }

  /** The cache always holds the parse of the last version read that passed, under the time of a
      version no later than it. */
  lemma {:induction false} RunHolds<T>(load: Bytes -> Option<T>, h: History, c: Cache<T>, b: nat, r: nat, calls: seq<Call>)
    returns (stated: nat)
    requires Booted(load, h, c, b, r) && Ordered(h, r, calls)
    requires forall i :: 0 <= i < |calls| ==> InHistory(h, calls[i])
    ensures
      var last := LastAccepted(load, h, c, r, calls);
      && stated <= last <= Latest(r, calls) < |h|
      && Booted(load, h, After(load, h, c, calls), stated, last)
    decreases |calls|
  {
    if calls == [] {
      stated := b;
    } else {
      var front, call := calls[..|calls| - 1], calls[|calls| - 1];
      stated := RunHolds(load, h, c, b, r, front);
      if Accepts(load, h, After(load, h, c, front), call) {
        stated := call.again.at;
      }
    }
  }

  predicate DistinctTimes(h: History) {
    forall i, j :: 0 <= i < j < |h| ==> h[i].mtime != h[j].mtime
  }

  /** A run from startup whose next call, `call`, takes the fast path. */
  ghost predicate FastRun<T>(load: Bytes -> Option<T>, h: History, c: Cache<T>, b: nat, r: nat, calls: seq<Call>, call: Call) {
    && Booted(load, h, c, b, r) && Ordered(h, r, calls + [call]) && InHistory(h, call)
    && (forall i :: 0 <= i < |calls| ==> InHistory(h, calls[i]))
    && FastPath(h, After(load, h, c, calls), call)
  }

  lemma {:induction false} OrderedLast(h: History, from: nat, calls: seq<Call>, call: Call)
    requires Ordered(h, from, calls + [call])
    ensures Ordered(h, from, calls) && Latest(from, calls) <= call.stat.at < |h|
  {
    assert (calls + [call])[..|calls + [call]| - 1] == calls;
  }

  lemma SameTime(h: History, stated: nat, last: nat, d: nat)
    requires DistinctTimes(h) && stated <= last <= d < |h| && h[stated].mtime == h[d].mtime
    ensures stated == last == d
  {
  }

  /** With distinct modification times the fast path returns the parse of the file's present
      content, however the file changed between a stat and a read before. */
  lemma {:induction false} FastPathIsPresent<T>(load: Bytes -> Option<T>, h: History, c: Cache<T>, b: nat, r: nat, calls: seq<Call>, call: Call)
    requires FastRun(load, h, c, b, r, calls, call) && DistinctTimes(h)
    ensures load(h[call.stat.at].content) == Some(After(load, h, c, calls).val)
    ensures LastAccepted(load, h, c, r, calls) == call.stat.at
  {
    OrderedLast(h, r, calls, call);
    var stated := RunHolds(load, h, c, b, r, calls);
    SameTime(h, stated, LastAccepted(load, h, c, r, calls), call.stat.at);
  }

  /** Equal times are harmless only if no parse between them differs from the later one's. */
  ghost predicate Unambiguous<T(!new)>(load: Bytes -> Option<T>, h: History) {
    forall b, r, d :: 0 <= b <= r <= d < |h| && h[b].mtime == h[d].mtime && load(h[r].content).Some?
      ==> load(h[d].content) == load(h[r].content)
  }

  ghost predicate AlwaysPresent<T(!new)>(load: Bytes -> Option<T>, h: History) {
    forall c: Cache<T>, b, r, calls, call | FastRun(load, h, c, b, r, calls, call)
      :: load(h[call.stat.at].content) == Some(After(load, h, c, calls).val)
  }

  /** The exact condition on the file's history: every fast path of every run returns the parse
      of the present content if and only if equal times never hide a differing parse. */
  lemma FastPathExact<T(!new)>(load: Bytes -> Option<T>, h: History)
    ensures AlwaysPresent(load, h) <==> Unambiguous(load, h)
    ensures DistinctTimes(h) ==> Unambiguous(load, h)
  {
    if Unambiguous(load, h) {
      forall c: Cache<T>, b, r, calls, call | FastRun(load, h, c, b, r, calls, call)
        ensures load(h[call.stat.at].content) == Some(After(load, h, c, calls).val)
      {
        OrderedLast(h, r, calls, call);
        var stated := RunHolds(load, h, c, b, r, calls);
      }
    }
    if AlwaysPresent(load, h) {
      forall b, r, d | 0 <= b <= r <= d < |h| && h[b].mtime == h[d].mtime && load(h[r].content).Some?
        ensures load(h[d].content) == load(h[r].content)
      {
        var c := Cache(h[b].mtime, load(h[r].content).value);
        var g := Glance(d, false);
        var call := Call(g, g, g);
        assert [] + [call] == [call] && [call][..0] == [];
        assert Ordered(h, r, []);
        assert FastRun(load, h, c, b, r, [], call);
      }
    }
  }

  /** It does happen: two versions under one time. The cache holds the first, and the fast path
      goes on returning it while the file holds the second. */
  lemma {:induction false} SameTimeServesStale(time: int, first: Bytes, second: Bytes)
    requires first != second
    ensures
      var load := (data: Bytes) => Some(data);
      var h := [Version(time, first), Version(time, second)];
      var call := Call(Glance(1, false), Glance(1, false), Glance(1, false));
      var c := Cache(time, first);
      && FastRun(load, h, c, 0, 0, [], call)
      && Step(load, h, c, call).val == first && load(h[call.stat.at].content) == Some(second)
  {
    var h := [Version(time, first), Version(time, second)];
    var g := Glance(1, false);
    var call := Call(g, g, g);
    assert [] + [call] == [call] && [call][..0] == [] && Ordered(h, 0, []);
    assert Ordered(h, 0, [call]);
  }

  /** Once the file rests at a version that passes, one call that reaches it is enough: every
      later call returns its parse, whichever of their system calls fail. */
  lemma {:induction false} Settles<T>(load: Bytes -> Option<T>, h: History, c: Cache<T>, d: nat, calls: seq<Call>)
    requires Booted(load, h, c, d, d)
    requires forall i :: 0 <= i < |calls| ==> InHistory(h, calls[i])
    requires forall i :: 0 <= i < |calls| ==> calls[i].stat.at == calls[i].again.at == calls[i].read.at == d
    ensures After(load, h, c, calls) == c
  {
    if calls != [] {
      Settles(load, h, c, d, calls[..|calls| - 1]);
    }
  }

  /** A call that finds a new version, and reads it undisturbed, adopts it if it passes and keeps
      the cache if it does not. */
  lemma AdoptsNewVersion<T>(load: Bytes -> Option<T>, h: History, c: Cache<T>, d: nat)
    requires d < |h| && c.modTime != h[d].mtime
    ensures
      var g := Glance(d, false);
      var next := Step(load, h, c, Call(g, g, g));
      if load(h[d].content).Some? then Booted(load, h, next, d, d) else next == c
  {
  }

  // -------------------------------------------------------------------------------------
  // The issuer's check
  // -------------------------------------------------------------------------------------

  /** `issuerLoader`: a certificate that parses and carries the signing key, compared with the
      key type's own equality; an unknown type compares unequal. */
  function IssuerLoad(parse: Bytes -> Option<X.Certificate>, comparable: nat -> bool, signer: nat): Bytes -> Option<X.Certificate> {
    data =>
      var cert := parse(data);
      if cert.Some? && comparable(cert.value.publicKey) && cert.value.publicKey == signer then cert else None
  }

  /** A file is accepted as issuer exactly when it parses as a certificate whose key is of a type that
      can be compared and is the signing key; it is then that certificate. */
  lemma IssuerAcceptedExactly(parse: Bytes -> Option<X.Certificate>, comparable: nat -> bool, signer: nat, data: Bytes, cert: X.Certificate)
    ensures IssuerLoad(parse, comparable, signer)(data) == Some(cert)
            <==> parse(data) == Some(cert) && comparable(signer) && cert.publicKey == signer
  {
  }

  /** So a re-minted issuer over the same key is taken up by the next undisturbed call, and one over
      another key is not. */
  lemma IssuerRefresh(parse: Bytes -> Option<X.Certificate>, comparable: nat -> bool, signer: nat,
                      h: History, c: Cache<X.Certificate>, d: nat, cert: X.Certificate)
    requires d < |h| && c.modTime != h[d].mtime && parse(h[d].content) == Some(cert) && comparable(signer)
    ensures
      var g := Glance(d, false);
      var next := Step(IssuerLoad(parse, comparable, signer), h, c, Call(g, g, g));
      next.val == (if cert.publicKey == signer then cert else c.val) && (next.modTime == h[d].mtime <==> cert.publicKey == signer)
  {
    AdoptsNewVersion(IssuerLoad(parse, comparable, signer), h, c, d);
  }

  /** Every issuer ever handed out carries the signing key, in every run. */
  lemma {:induction false} IssuerKeyFixed(parse: Bytes -> Option<X.Certificate>, comparable: nat -> bool, signer: nat,
                       h: History, c: Cache<X.Certificate>, b: nat, r: nat, calls: seq<Call>)
    requires Booted(IssuerLoad(parse, comparable, signer), h, c, b, r) && Ordered(h, r, calls)
    requires forall i :: 0 <= i < |calls| ==> InHistory(h, calls[i])
    ensures After(IssuerLoad(parse, comparable, signer), h, c, calls).val.publicKey == signer
  {
    var stated := RunHolds(IssuerLoad(parse, comparable, signer), h, c, b, r, calls);
  }
}
