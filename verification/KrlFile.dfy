/** From revocations to the reader of their file: exactly when the file and the store agree. */
module KrlFile {
  import opened Wrappers
  import opened Sorting
  import opened Decimal
  import opened Text
  import opened Krl
  import opened KrlSpec

  predicate HasSerial(es: seq<Revocation>, n: uint64) {
    n != 0 && exists i :: 0 <= i < |es| && es[i].serial == n
  }

  predicate HasKeyID(es: seq<Revocation>, k: string) {
    k != "" && exists i :: 0 <= i < |es| && es[i].keyID == k
  }

  /** A directive that revokes nothing the entries do not: it names one of them, or is a serial
      that cannot be read. */
  predicate Harmless(es: seq<Revocation>, d: Directive) {
    match d
    case Serial(n) => n.None? || HasSerial(es, n.value)
    case Id(k) => HasKeyID(es, k)
  }

  /** The directives on the later lines of a revoker. */
  function Planted(revoker: string): seq<Directive> {
    Collect(Split(revoker)[1..])
  }

  predicate Listed(e: Revocation) {
    e.serial != 0 || e.keyID != ""
  }

  predicate HarmlessEntry(es: seq<Revocation>, e: Revocation) {
    Listed(e) ==> forall d :: d in Planted(e.revoker) ==> Harmless(es, d)
  }

  /** What a caller can check of the entries beforehand: key ids of one line, and revokers whose
      later lines plant nothing new. */
  predicate Faithful(es: seq<Revocation>) {
    forall i :: 0 <= i < |es| ==> OneLine(es[i].keyID) && HarmlessEntry(es, es[i])
  }

  /** The directives name a certificate exactly when the store calls it revoked. */
  ghost predicate Agrees(ds: seq<Directive>, h: seq<Revocation>) {
    forall serial: uint64, keyID: string ::
      Serial(Some(serial)) in ds || Id(keyID) in ds <==> Lookup(BySerial(h), ByKeyID(h), serial, keyID)
  }

  /** All that is listed is read, and what is read is harmless. */
  ghost predicate SoundAndComplete(ds: seq<Directive>, es: seq<Revocation>) {
    && (forall d :: d in ds ==> Harmless(es, d))
    && (forall n: uint64 :: HasSerial(es, n) ==> Serial(Some(n)) in ds)
    && (forall k :: HasKeyID(es, k) ==> Id(k) in ds)
  }

  lemma {:induction false} LookupListed(h: seq<Revocation>, es: seq<Revocation>, serial: uint64, keyID: string)
    requires IsSnapshot(es, h)
    ensures Lookup(BySerial(h), ByKeyID(h), serial, keyID) <==> HasSerial(es, serial) || HasKeyID(es, keyID)
  {
    SnapshotAgrees(h, es, serial, keyID);
  }

  lemma AgreesMeans(ds: seq<Directive>, h: seq<Revocation>, es: seq<Revocation>)
    requires IsSnapshot(es, h)
    ensures Agrees(ds, h) <==> SoundAndComplete(ds, es)
  {
    forall serial: uint64, keyID: string
      ensures Lookup(BySerial(h), ByKeyID(h), serial, keyID) <==> HasSerial(es, serial) || HasKeyID(es, keyID)
    {
      LookupListed(h, es, serial, keyID);
    }
    if Agrees(ds, h) {
      assert !Lookup(BySerial(h), ByKeyID(h), 0, "");
      assert Serial(Some(0)) !in ds && Id("") !in ds;
      forall d | d in ds ensures Harmless(es, d) {
        match d
        case Serial(n) =>
          if n.Some? {
            assert Lookup(BySerial(h), ByKeyID(h), n.value, "");
          }
        case Id(k) => assert Lookup(BySerial(h), ByKeyID(h), 0, k);
      }
      forall n: uint64 | HasSerial(es, n) ensures Serial(Some(n)) in ds {
        assert Lookup(BySerial(h), ByKeyID(h), n, "");
      }
      forall k | HasKeyID(es, k) ensures Id(k) in ds {
        assert Lookup(BySerial(h), ByKeyID(h), 0, k);
      }
    }
  }

  // -------------------------------------------------------------------------------------
  // What is read, and from where
  // -------------------------------------------------------------------------------------

  lemma InEither<T>(x: T, a: seq<T>, b: seq<T>, c: seq<T>)
    ensures x in a + (b + c) <==> x in a || x in b || x in c
  {
    InConcat(x, b, c);
    InConcat(x, a, b + c);
  }

  lemma {:induction false} SerialsReadOrigin(ss: seq<SerialEntry>, d: Directive) returns (i: nat)
    requires d in SerialsRead(ss)
    ensures i < |ss| && (d in Noise(ss[i].annot) || d == Serial(Some(ss[i].serial)))
  {
    var front, s := ss[..|ss| - 1], ss[|ss| - 1];
    InEither(d, SerialsRead(front), Noise(s.annot), [Serial(Some(s.serial))]);
    if d in SerialsRead(front) {
      i := SerialsReadOrigin(front, d);
    } else {
      i := |ss| - 1;
    }
  }

  lemma {:induction false} SerialsReadHas(ss: seq<SerialEntry>, i: nat, d: Directive)
    requires i < |ss| && (d in Noise(ss[i].annot) || d == Serial(Some(ss[i].serial)))
    ensures d in SerialsRead(ss)
    decreases |ss|
  {
    var front, s := ss[..|ss| - 1], ss[|ss| - 1];
    InEither(d, SerialsRead(front), Noise(s.annot), [Serial(Some(s.serial))]);
    if i < |front| {
      SerialsReadHas(front, i, d);
    }
  }

  lemma {:induction false} IdsReadOrigin(ks: seq<KeyIDEntry>, d: Directive) returns (i: nat)
    requires d in IdsRead(ks)
    ensures i < |ks| && (d in Noise(ks[i].annot) || d in IdRead(ks[i].keyID))
  {
    var front, k := ks[..|ks| - 1], ks[|ks| - 1];
    InEither(d, IdsRead(front), Noise(k.annot), IdRead(k.keyID));
    if d in IdsRead(front) {
      i := IdsReadOrigin(front, d);
    } else {
      i := |ks| - 1;
    }
  }

  lemma {:induction false} IdsReadHas(ks: seq<KeyIDEntry>, i: nat, d: Directive)
    requires i < |ks| && (d in Noise(ks[i].annot) || d in IdRead(ks[i].keyID))
    ensures d in IdsRead(ks)
    decreases |ks|
  {
    var front, k := ks[..|ks| - 1], ks[|ks| - 1];
    InEither(d, IdsRead(front), Noise(k.annot), IdRead(k.keyID));
    if i < |front| {
      IdsReadHas(front, i, d);
    }
  }

  /** A comment lets slip exactly what its revoker plants. */
  lemma {:induction false} NoiseIsPlanted(e: Revocation)
    ensures Noise(Annotation(e)) == Planted(e.revoker)
  {
    if e.revoker == "" {
      LeadIsOneLine(e.reason);
      SplitOneLine("");
      SplitOneLine(Annotation(e));
    } else {
      RevokerNoise(e);
    }
  }

  // -------------------------------------------------------------------------------------
  // An entry's directives
  // -------------------------------------------------------------------------------------

  /** Everything an entry puts into the file: what its revoker plants, its serial, its key id's lines. */
  predicate FromEntry(e: Revocation, d: Directive) {
    || (Listed(e) && d in Planted(e.revoker))
    || (e.serial != 0 && d == Serial(Some(e.serial)))
    || (e.keyID != "" && d in IdRead(e.keyID))
  }

  lemma {:induction false} SerialPartOrigin(es: seq<Revocation>, ss: seq<SerialEntry>, d: Directive) returns (j: nat)
    requires multiset(ss) == multiset(SerialEntries(es)) && d in SerialsRead(ss)
    ensures j < |es| && FromEntry(es[j], d)
  {
    var i := SerialsReadOrigin(ss, d);
    SamePermutationMembers(ss, SerialEntries(es));
    j := SerialEntryOrigin(es, ss[i]);
    NoiseIsPlanted(es[j]);
  }

  lemma {:induction false} KeyIDPartOrigin(es: seq<Revocation>, ks: seq<KeyIDEntry>, d: Directive) returns (j: nat)
    requires multiset(ks) == multiset(KeyIDEntries(es)) && d in IdsRead(ks)
    ensures j < |es| && FromEntry(es[j], d)
  {
    var i := IdsReadOrigin(ks, d);
    SamePermutationMembers(ks, KeyIDEntries(es));
    j := KeyIDEntryOrigin(es, ks[i]);
    NoiseIsPlanted(es[j]);
  }

  /** What is read comes from an entry. */
  lemma {:induction false} ReadOrigin(es: seq<Revocation>, ss: seq<SerialEntry>, ks: seq<KeyIDEntry>, d: Directive)
    requires Arranged(es, ss, ks)
    ensures d in SerialsRead(ss) + IdsRead(ks) ==> exists j :: 0 <= j < |es| && FromEntry(es[j], d)
  {
    InConcat(d, SerialsRead(ss), IdsRead(ks));
    if d in SerialsRead(ss) {
      var j := SerialPartOrigin(es, ss, d);
    } else if d in IdsRead(ks) {
      var j := KeyIDPartOrigin(es, ks, d);
    }
  }

  lemma {:induction false} ReadHasSerialPart(es: seq<Revocation>, ss: seq<SerialEntry>, j: nat, d: Directive)
    requires multiset(ss) == multiset(SerialEntries(es)) && j < |es| && es[j].serial != 0
    requires d in Planted(es[j].revoker) || d == Serial(Some(es[j].serial))
    ensures d in SerialsRead(ss)
  {
    SamePermutationMembers(ss, SerialEntries(es));
    SerialEntryListed(es, j);
    NoiseIsPlanted(es[j]);
    var i :| 0 <= i < |ss| && ss[i] == SerialEntry(es[j].serial, Annotation(es[j]));
    SerialsReadHas(ss, i, d);
  }

  lemma {:induction false} ReadHasKeyIDPart(es: seq<Revocation>, ks: seq<KeyIDEntry>, j: nat, d: Directive)
    requires multiset(ks) == multiset(KeyIDEntries(es)) && j < |es| && es[j].keyID != ""
    requires d in Planted(es[j].revoker) || d in IdRead(es[j].keyID)
    ensures d in IdsRead(ks)
  {
    SamePermutationMembers(ks, KeyIDEntries(es));
    KeyIDEntryListed(es, j);
    NoiseIsPlanted(es[j]);
    var i :| 0 <= i < |ks| && ks[i] == KeyIDEntry(es[j].keyID, Annotation(es[j]));
    IdsReadHas(ks, i, d);
  }

  lemma {:induction false} ReadHas(es: seq<Revocation>, ss: seq<SerialEntry>, ks: seq<KeyIDEntry>, j: nat, d: Directive)
    requires Arranged(es, ss, ks) && j < |es| && FromEntry(es[j], d)
    ensures d in SerialsRead(ss) + IdsRead(ks)
  {
    InConcat(d, SerialsRead(ss), IdsRead(ks));
    if es[j].serial != 0 && (d in Planted(es[j].revoker) || d == Serial(Some(es[j].serial))) {
      ReadHasSerialPart(es, ss, j, d);
    } else {
      ReadHasKeyIDPart(es, ks, j, d);
    }
  }

  // -------------------------------------------------------------------------------------
  // The theorem
  // -------------------------------------------------------------------------------------

  lemma {:induction false} FlatMapOrigin<A, B>(f: A -> seq<B>, xs: seq<A>, y: B) returns (i: nat)
    requires y in FlatMap(f, xs)
    ensures i < |xs| && y in f(xs[i])
  {
    InConcat(y, f(xs[0]), FlatMap(f, xs[1..]));
    if y in f(xs[0]) {
      i := 0;
    } else {
      i := FlatMapOrigin(f, xs[1..], y);
      i := i + 1;
    }
  }

  /** A directive read from any text is of one line. */
  lemma {:induction false} IdsAreOneLine(text: string, k: string)
    requires Id(k) in Read(text)
    ensures OneLine(k)
  {
    var i := FlatMapOrigin(Found, Split(text), Id(k));
    assert k == Split(text)[i][4..];
  }

  lemma {:induction false} FaithfulIsSound(es: seq<Revocation>, ds: seq<Directive>)
    requires forall d :: d in ds <==> exists j :: 0 <= j < |es| && FromEntry(es[j], d)
    requires forall k :: Id(k) in ds ==> OneLine(k)
    ensures SoundAndComplete(ds, es) <==> Faithful(es)
  {
    if Faithful(es) {
      forall d | d in ds ensures Harmless(es, d) {
        var j :| 0 <= j < |es| && FromEntry(es[j], d);
        assert HarmlessEntry(es, es[j]);
        IdReadExact(es[j].keyID);
      }
      forall n: uint64 | HasSerial(es, n) ensures Serial(Some(n)) in ds {
        var j :| 0 <= j < |es| && es[j].serial == n;
        assert FromEntry(es[j], Serial(Some(n)));
      }
      forall k | HasKeyID(es, k) ensures Id(k) in ds {
        var j :| 0 <= j < |es| && es[j].keyID == k;
        IdReadExact(k);
        assert FromEntry(es[j], Id(k));
      }
    }
    if SoundAndComplete(ds, es) {
      forall i | 0 <= i < |es| ensures OneLine(es[i].keyID) && HarmlessEntry(es, es[i]) {
        assert es[i].keyID != "" ==> HasKeyID(es, es[i].keyID);
        forall d | Listed(es[i]) && d in Planted(es[i].revoker) ensures Harmless(es, d) {
          assert FromEntry(es[i], d);
        }
      }
    }
  }

  /** For every snapshot of every history, and every order of ties: the file names a certificate's
      serial or key id exactly when the store calls it revoked, for all of them, if and only if key
      ids are of one line and what revokers plant is unreadable or names an entry. */
  lemma {:induction false} FileAgreesExactly(h: seq<Revocation>, es: seq<Revocation>, ss: seq<SerialEntry>, ks: seq<KeyIDEntry>, stamp: string)
    requires IsSnapshot(es, h) && Arranged(es, ss, ks) && OneLine(stamp)
    ensures Agrees(Read(Render(stamp, ss, ks)), h) <==> Faithful(es)
  {
    var ds := Read(Render(stamp, ss, ks));
    ReadRendered(stamp, ss, ks);
    forall d ensures d in ds <==> exists j :: 0 <= j < |es| && FromEntry(es[j], d) {
      ReadOrigin(es, ss, ks, d);
      if j :| 0 <= j < |es| && FromEntry(es[j], d) {
        ReadHas(es, ss, ks, j, d);
      }
    }
    forall k | Id(k) in ds ensures OneLine(k) {
      IdsAreOneLine(Render(stamp, ss, ks), k);
    }
    FaithfulIsSound(es, ds);
    AgreesMeans(ds, h, es);
  }
}
