/** The in-memory revocation store: two indices, and a snapshot that merges them. A revocation
    with serial 0 or key id "" does not name that field; a zero time is filled in on arrival. */
module Krl {
  import opened Wrappers
  import opened Sorting
  import opened Decimal

  datatype Revocation = Revocation(serial: uint64, keyID: string, reason: string, revoker: string, revoked: int)

  // -------------------------------------------------------------------------------------
  // The indices as functions of the revocations accepted so far
  // -------------------------------------------------------------------------------------

  function BySerial(h: seq<Revocation>): map<uint64, Revocation> {
    if h == [] then map[]
    else
      var r := h[|h| - 1];
      var m := BySerial(h[..|h| - 1]);
      if r.serial != 0 then m[r.serial := r] else m
  }

  function ByKeyID(h: seq<Revocation>): map<string, Revocation> {
    if h == [] then map[]
    else
      var r := h[|h| - 1];
      var m := ByKeyID(h[..|h| - 1]);
      if r.keyID != "" then m[r.keyID := r] else m
  }

  lemma {:induction false} IndicesAfter(h: seq<Revocation>, r: Revocation)
    ensures BySerial(h + [r]) == if r.serial != 0 then BySerial(h)[r.serial := r] else BySerial(h)
    ensures ByKeyID(h + [r]) == if r.keyID != "" then ByKeyID(h)[r.keyID := r] else ByKeyID(h)
  {
    assert (h + [r])[..|h|] == h;
  }

  /** Some revocation in the list names the serial or the key id. */
  predicate Named(rs: seq<Revocation>, serial: uint64, keyID: string) {
    exists i :: 0 <= i < |rs| && ((serial != 0 && rs[i].serial == serial) || (keyID != "" && rs[i].keyID == keyID))
  }

  predicate Lookup(bySerial: map<uint64, Revocation>, byKeyID: map<string, Revocation>, serial: uint64, keyID: string) {
    (serial != 0 && serial in bySerial) || (keyID != "" && keyID in byKeyID)
  }

  predicate IsLive(h: seq<Revocation>, r: Revocation) {
    || (r.serial in BySerial(h) && BySerial(h)[r.serial] == r)
    || (r.keyID in ByKeyID(h) && ByKeyID(h)[r.keyID] == r)
  }

  /** Each index entry is a past revocation, filed under the field it names. */
  lemma {:induction false} IndexEntries(h: seq<Revocation>)
    ensures forall s :: s in BySerial(h) ==> s != 0 && BySerial(h)[s].serial == s && BySerial(h)[s] in h
    ensures forall k :: k in ByKeyID(h) ==> k != "" && ByKeyID(h)[k].keyID == k && ByKeyID(h)[k] in h
    ensures forall i :: 0 <= i < |h| ==> (h[i].serial != 0 ==> h[i].serial in BySerial(h))
                                         && (h[i].keyID != "" ==> h[i].keyID in ByKeyID(h))
  {
    if h != [] {
      IndexEntries(h[..|h| - 1]);
      assert h == h[..|h| - 1] + [h[|h| - 1]];
    }
  }

  /** When the two indices hold entries that name each other, they hold the same entry. */
  lemma {:induction false} IndicesAgree(h: seq<Revocation>, s: uint64)
    requires s in BySerial(h) && BySerial(h)[s].keyID != ""
    requires BySerial(h)[s].keyID in ByKeyID(h) && ByKeyID(h)[BySerial(h)[s].keyID].serial == s
    ensures ByKeyID(h)[BySerial(h)[s].keyID] == BySerial(h)[s]
  {
    var r := h[|h| - 1];
    IndexEntries(h);
    if s != r.serial && BySerial(h)[s].keyID != r.keyID {
      IndicesAgree(h[..|h| - 1], s);
    }
  }

  /** No two live revocations have the same serial and key id. */
  lemma LiveDistinct(h: seq<Revocation>, a: Revocation, b: Revocation)
    requires IsLive(h, a) && IsLive(h, b) && a.serial == b.serial && a.keyID == b.keyID
    ensures a == b
  {
    IndexEntries(h);
    if a != b {
      IndicesAgree(h, a.serial);
    }
  }

  /** Over every run of revocations: the indices answer exactly whether some past one named the
      serial or the key id. */
  lemma {:induction false} LookupExact(h: seq<Revocation>, serial: uint64, keyID: string)
    ensures Lookup(BySerial(h), ByKeyID(h), serial, keyID) <==> Named(h, serial, keyID)
  {
    IndexEntries(h);
  }

  // -------------------------------------------------------------------------------------
  // The snapshot
  // -------------------------------------------------------------------------------------

  /** The snapshot's order: time, then serial, then key id. */
  predicate Before(a: Revocation, b: Revocation) {
    if a.revoked == b.revoked then
      if a.serial != b.serial then a.serial < b.serial else Less(a.keyID, b.keyID)
    else a.revoked < b.revoked
  }

  lemma BeforeIsOrder()
    ensures StrictWeak(Before)
  {
    forall x, y ensures Asymmetric(Before, x, y) {
      if Less(x.keyID, y.keyID) {
        LessAsymmetric(x.keyID, y.keyID);
      }
    }
    forall x, y, z ensures Cotransitive(Before, x, y, z) {
      if Less(x.keyID, y.keyID) {
        LessCotransitive(x.keyID, y.keyID, z.keyID);
      }
    }
  }

  /** A listing of the live revocations, each once, in the snapshot's order. */
  ghost predicate IsSnapshot(entries: seq<Revocation>, h: seq<Revocation>) {
    && Sorted(Before, entries)
    && (forall r :: r in entries <==> IsLive(h, r))
    && (forall i, j :: 0 <= i < j < |entries| ==> entries[i] != entries[j])
  }

  lemma LiveSeparated(entries: seq<Revocation>, h: seq<Revocation>)
    requires forall r :: r in entries ==> IsLive(h, r)
    ensures Separates(Before, entries)
  {
    forall i, j | 0 <= i < |entries| && 0 <= j < |entries| && entries[i] != entries[j]
      ensures Before(entries[i], entries[j]) || Before(entries[j], entries[i])
    {
      var x, y := entries[i], entries[j];
      assert x in entries && y in entries;
      if x.serial == y.serial && x.keyID == y.keyID {
        LiveDistinct(h, x, y);
      } else if x.serial == y.serial {
        LessTotal(x.keyID, y.keyID);
      }
    }
  }

  lemma {:induction false} DistinctCount<T>(s: seq<T>, x: T)
    requires forall i, j :: 0 <= i < j < |s| ==> s[i] != s[j]
    ensures multiset(s)[x] == if x in s then 1 else 0
  {
    if s != [] {
      DistinctCount(s[1..], x);
      assert s == [s[0]] + s[1..];
      assert s[0] !in s[1..];
    }
  }

  /** There is only one snapshot of a history: iteration order over the maps cannot show. */
  lemma SnapshotUnique(h: seq<Revocation>, a: seq<Revocation>, b: seq<Revocation>)
    requires IsSnapshot(a, h) && IsSnapshot(b, h)
    ensures a == b
  {
    forall x ensures multiset(a)[x] == multiset(b)[x] {
      DistinctCount(a, x);
      DistinctCount(b, x);
    }
    LiveSeparated(a, h);
    SortedUnique(Before, a, b);
  }

  /** A snapshot runs from the oldest revocation to the newest; those of one time by serial, and those
      of one time and serial by key id. */
  lemma SnapshotOrder(h: seq<Revocation>, entries: seq<Revocation>, i: nat, j: nat)
    requires IsSnapshot(entries, h) && i < j < |entries|
    ensures entries[i].revoked <= entries[j].revoked
    ensures entries[i].revoked == entries[j].revoked ==> entries[i].serial <= entries[j].serial
    ensures entries[i].revoked == entries[j].revoked && entries[i].serial == entries[j].serial ==> Less(entries[i].keyID, entries[j].keyID)
  {
    assert entries[i] in entries && entries[j] in entries;
    if entries[i].revoked == entries[j].revoked && entries[i].serial == entries[j].serial {
      if entries[i].keyID == entries[j].keyID {
        LiveDistinct(h, entries[i], entries[j]);
      } else {
        LessTotal(entries[i].keyID, entries[j].keyID);
      }
    }
  }

  /** Each index holds, under a serial or key id, the latest revocation that named it. */
  lemma {:induction false} LatestHeld(h: seq<Revocation>, i: nat)
    requires i < |h|
    ensures h[i].serial != 0 && (forall j :: i < j < |h| ==> h[j].serial != h[i].serial) ==>
              h[i].serial in BySerial(h) && BySerial(h)[h[i].serial] == h[i]
    ensures h[i].keyID != "" && (forall j :: i < j < |h| ==> h[j].keyID != h[i].keyID) ==>
              h[i].keyID in ByKeyID(h) && ByKeyID(h)[h[i].keyID] == h[i]
    decreases |h|
  {
    if i < |h| - 1 {
      LatestHeld(h[..|h| - 1], i);
      assert forall j :: i < j < |h| - 1 ==> h[..|h| - 1][j] == h[j];
    }
  }

  /** Looking a certificate up in a snapshot gives the store's own answer, and each
      (serial, key id) pair is listed once. */
  lemma {:induction false} SnapshotAgrees(h: seq<Revocation>, entries: seq<Revocation>, serial: uint64, keyID: string)
    requires IsSnapshot(entries, h)
    ensures Named(entries, serial, keyID) <==> Lookup(BySerial(h), ByKeyID(h), serial, keyID)
    ensures forall i, j :: 0 <= i < j < |entries| ==>
              entries[i].serial != entries[j].serial || entries[i].keyID != entries[j].keyID
  {
    IndexEntries(h);
    forall i, j | 0 <= i < j < |entries|
      ensures entries[i].serial != entries[j].serial || entries[i].keyID != entries[j].keyID
    {
      assert entries[i] in entries && entries[j] in entries;
      if entries[i].serial == entries[j].serial && entries[i].keyID == entries[j].keyID {
        LiveDistinct(h, entries[i], entries[j]);
      }
    }
    if serial != 0 && serial in BySerial(h) {
      assert BySerial(h)[serial] in entries;
    }
    if keyID != "" && keyID in ByKeyID(h) {
      assert ByKeyID(h)[keyID] in entries;
    }
    if Named(entries, serial, keyID) {
      var i :| 0 <= i < |entries|
               && ((serial != 0 && entries[i].serial == serial) || (keyID != "" && entries[i].keyID == keyID));
      assert entries[i] in entries;
      var j :| 0 <= j < |h| && h[j] == entries[i];
    }
  }

  /** `revocationKey`. */
  function RevocationKey(r: Revocation): string {
    r.keyID + "|" + Digits(r.serial)
  }

  /** The key tells (serial, key id) pairs apart even when key ids hold bars and digits. */
  lemma RevocationKeyInjective(a: Revocation, b: Revocation)
    requires RevocationKey(a) == RevocationKey(b)
    ensures a.serial == b.serial && a.keyID == b.keyID
  {
    DigitsDenote(a.serial);
    DigitsDenote(b.serial);
    LastBar(a.keyID, Digits(a.serial), b.keyID, Digits(b.serial));
  }

  lemma LastBar(k: string, d: string, k': string, d': string)
    requires AllDigits(d) && AllDigits(d') && k + "|" + d == k' + "|" + d'
    ensures k == k' && d == d'
  {
    var s := k + "|" + d;
    assert s[|k|] == '|' && s[|k'|] == '|';
    assert forall i :: |k| < i < |s| ==> s[i] == d[i - |k| - 1];
    assert forall i :: |k'| < i < |s| ==> s[i] == d'[i - |k'| - 1];
    assert |k| == |k'|;
    assert k == s[..|k|] && k' == s[..|k|];
    assert d == s[|k| + 1..] && d' == s[|k| + 1..];
  }

  // -------------------------------------------------------------------------------------
  // The store
  // -------------------------------------------------------------------------------------

  class InMemoryStore {
    var bySerial: map<uint64, Revocation>
    var byKeyID: map<string, Revocation>
    ghost var history: seq<Revocation>

    ghost predicate Valid()
      reads this
    {
      bySerial == BySerial(history) && byKeyID == ByKeyID(history)
    }

    constructor ()
      ensures Valid() && history == []
    {
      bySerial, byKeyID, history := map[], map[], [];
    }

    method Revoke(r: Revocation, now: int) returns (ok: bool)
      requires Valid()
      modifies this
      ensures Valid()
      ensures ok <==> r.serial != 0 || r.keyID != ""
      ensures history == if ok then old(history) + [if r.revoked == 0 then r.(revoked := now) else r] else old(history)
    {
      if r.serial == 0 && r.keyID == "" {
        return false;
      }
      var stored := r;
      if stored.revoked == 0 {
        stored := stored.(revoked := now);
      }
      if stored.serial != 0 {
        bySerial := bySerial[stored.serial := stored];
      }
      if stored.keyID != "" {
        byKeyID := byKeyID[stored.keyID := stored];
      }
      IndicesAfter(history, stored);
      history := history + [stored];
      ok := true;
    }

    method IsRevoked(serial: uint64, keyID: string) returns (revoked: bool)
      requires Valid()
      ensures revoked <==> Named(history, serial, keyID)
    {
      LookupExact(history, serial, keyID);
      if serial != 0 {
        if serial in bySerial {
          return true;
        }
      }
      if keyID != "" {
        if keyID in byKeyID {
          return true;
        }
      }
      revoked := false;
    }

    /** Merges the two indices by revocation key, walking each map in any order, and sorts. */
    method Snapshot() returns (entries: seq<Revocation>)
      requires Valid()
      ensures IsSnapshot(entries, history)
    {
      IndexEntries(history);
      var seen := MergeIndex(bySerial, map[], history);
      seen := MergeIndex(byKeyID, seen, history);
      var out := ListValues(seen, RevocationKey);
      MergedIsLive(seen, history);
      entries := Sort(Before, out);
      BeforeIsOrder();
      SortSound(Before, out);
      SortedListing(out, entries);
    }
  }

  /** Every merged entry is live and filed under its own key. */
  ghost predicate Merged(seen: map<string, Revocation>, h: seq<Revocation>) {
    forall k :: k in seen ==> RevocationKey(seen[k]) == k && IsLive(h, seen[k])
  }

  ghost predicate Keeps(seen: map<string, Revocation>, r: Revocation) {
    RevocationKey(r) in seen && seen[RevocationKey(r)] == r
  }

  /** Filing a live entry overwrites nothing but itself. */
  lemma MergeOne(seen: map<string, Revocation>, h: seq<Revocation>, r: Revocation)
    requires Merged(seen, h) && IsLive(h, r)
    ensures RevocationKey(r) in seen ==> seen[RevocationKey(r)] == r
  {
    if RevocationKey(r) in seen {
      RevocationKeyInjective(r, seen[RevocationKey(r)]);
      LiveDistinct(h, r, seen[RevocationKey(r)]);
    }
  }

  /** Files the entries of one index, in any order, beside those already there. */
  method MergeIndex<K>(index: map<K, Revocation>, start: map<string, Revocation>, ghost h: seq<Revocation>)
    returns (seen: map<string, Revocation>)
    requires Merged(start, h) && forall k :: k in index ==> IsLive(h, index[k])
    ensures Merged(seen, h)
    ensures forall r :: Keeps(start, r) ==> Keeps(seen, r)
    ensures forall k :: k in index ==> Keeps(seen, index[k])
  {
    seen := start;
    var keys := index.Keys;
    while keys != {}
      invariant keys <= index.Keys && Merged(seen, h)
      invariant forall r :: Keeps(start, r) ==> Keeps(seen, r)
      invariant forall k :: k in index && k !in keys ==> Keeps(seen, index[k])
      decreases |keys|
    {
      var k :| k in keys;
      MergeOne(seen, h, index[k]);
      seen := seen[RevocationKey(index[k]) := index[k]];
      keys := keys - {k};
    }
  }

  /** With both indices filed, the merged entries are the live ones. */
  lemma {:induction false} MergedIsLive(seen: map<string, Revocation>, h: seq<Revocation>)
    requires Merged(seen, h)
    requires forall s :: s in BySerial(h) ==> Keeps(seen, BySerial(h)[s])
    requires forall k :: k in ByKeyID(h) ==> Keeps(seen, ByKeyID(h)[k])
    ensures forall r :: IsLive(h, r) <==> exists k :: k in seen && seen[k] == r
  {
    forall r | IsLive(h, r) ensures exists k :: k in seen && seen[k] == r {
      assert Keeps(seen, r);
    }
  }

  /** The values of a map whose keys are a function of them, in whatever order it yields them. */
  method ListValues<V(!new)>(seen: map<string, V>, ghost key: V -> string) returns (out: seq<V>)
    requires forall k :: k in seen ==> key(seen[k]) == k
    ensures forall r :: r in out <==> exists k :: k in seen && seen[k] == r
    ensures forall i, j :: 0 <= i < j < |out| ==> out[i] != out[j]
  {
    out := [];
    var keys := seen.Keys;
    while keys != {}
      invariant keys <= seen.Keys
      invariant forall r :: r in out <==> key(r) in seen && key(r) !in keys && seen[key(r)] == r
      invariant forall i, j :: 0 <= i < j < |out| ==> out[i] != out[j]
      decreases |keys|
    {
      var k :| k in keys;
      out := out + [seen[k]];
      keys := keys - {k};
    }
  }

  lemma SortedListing(out: seq<Revocation>, entries: seq<Revocation>)
    requires multiset(out) == multiset(entries)
    requires forall i, j :: 0 <= i < j < |out| ==> out[i] != out[j]
    ensures forall r :: r in entries <==> r in out
    ensures forall i, j :: 0 <= i < j < |entries| ==> entries[i] != entries[j]
  {
    SamePermutationMembers(out, entries);
    forall i, j | 0 <= i < j < |entries| ensures entries[i] != entries[j] {
      DistinctCount(out, entries[i]);
      CountsDistinct(entries, i, j);
    }
  }
}
