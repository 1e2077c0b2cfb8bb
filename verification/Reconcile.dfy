/** `certd reconcile`: the diff of the role file against the table, and applying it. */
module Reconcile {
  import opened Wrappers
  import opened Roles
  import opened Sorting
  import opened RoleTable

  datatype Plan = Plan(add: seq<Role>, update: seq<Role>, prune: seq<string>, conflicts: seq<string>) {
    predicate Empty() {
      |add| == 0 && |update| == 0 && |prune| == 0
    }
  }

  // -------------------------------------------------------------------------------------
  // Equality of roles
  // -------------------------------------------------------------------------------------

  /** `sameSet`: equal lengths and equal sorted copies. */
  predicate SameSet(a: seq<string>, b: seq<string>) {
    |a| == |b| && SortStrings(a) == SortStrings(b)
  }

  predicate RoleEqual(a: Role, b: Role) {
    && a.name == b.name
    && a.groupClaim == b.groupClaim
    && a.maxUserCertTTLSeconds == b.maxUserCertTTLSeconds
    && a.maxHostCertTTLSeconds == b.maxHostCertTTLSeconds
    && a.maxX509CertTTLSeconds == b.maxX509CertTTLSeconds
    && SameSet(a.allowedPrincipals, b.allowedPrincipals)
    && SameSet(a.hostPatterns, b.hostPatterns)
    && SameSet(a.spiffePatterns, b.spiffePatterns)
    && a.defaultExtensions == b.defaultExtensions
  }

  /** Despite its name, `sameSet` counts repetitions: it is equality of multisets. */
  lemma SameSetIsMultisetEquality(a: seq<string>, b: seq<string>)
    ensures SameSet(a, b) <==> multiset(a) == multiset(b)
  {
    SortStringsSound(a);
    SortStringsSound(b);
    if multiset(a) == multiset(b) {
      SamePermutationMembers(a, b);
      SortStringsUnique(b, SortStrings(a));
    }
  }

  /** Two roles that differ at most in the order of their lists. */
  predicate SameRole(a: Role, b: Role) {
    && a.(allowedPrincipals := b.allowedPrincipals, hostPatterns := b.hostPatterns, spiffePatterns := b.spiffePatterns) == b
    && multiset(a.allowedPrincipals) == multiset(b.allowedPrincipals)
    && multiset(a.hostPatterns) == multiset(b.hostPatterns)
    && multiset(a.spiffePatterns) == multiset(b.spiffePatterns)
  }

  /** Roles are equal for reconcile exactly when every field is, lists as multisets. */
  lemma RoleEqualExactly(a: Role, b: Role)
    ensures RoleEqual(a, b) <==> SameRole(a, b)
  {
    SameSetIsMultisetEquality(a.allowedPrincipals, b.allowedPrincipals);
    SameSetIsMultisetEquality(a.hostPatterns, b.hostPatterns);
    SameSetIsMultisetEquality(a.spiffePatterns, b.spiffePatterns);
  }

  // -------------------------------------------------------------------------------------
  // The diff
  // -------------------------------------------------------------------------------------

  datatype Class = ToAdd | ToUpdate | InConflict | Unchanged

  /** How a file role stands against the table. */
  function Classify(r: Role, t: Table, adopt: bool): Class {
    if r.name !in t then ToAdd
    else if t[r.name].source == PORTAL then (if adopt then ToUpdate else InConflict)
    else if !RoleEqual(t[r.name].role, r) then ToUpdate
    else Unchanged
  }

  function Select(file: seq<Role>, t: Table, adopt: bool, c: Class): seq<Role> {
    if file == [] then []
    else
      var last := file[|file| - 1];
      Select(file[..|file| - 1], t, adopt, c) + (if Classify(last, t, adopt) == c then [last] else [])
  }

  function Names(rs: seq<Role>): seq<string> {
    if rs == [] then [] else Names(rs[..|rs| - 1]) + [rs[|rs| - 1].name]
  }

  /** A row the files own and no longer mention. */
  predicate IsOrphan(rec: Record, file: seq<Role>) {
    rec.source == CONFIG && !HasName(file, rec.role.name)
  }

  function Orphans(db: seq<Record>, file: seq<Role>): seq<string> {
    if db == [] then []
    else
      var last := db[|db| - 1];
      Orphans(db[..|db| - 1], file) + (if IsOrphan(last, file) then [last.role.name] else [])
  }

  function ByName(db: seq<Record>): Table {
    if db == [] then map[]
    else ByName(db[..|db| - 1])[db[|db| - 1].role.name := db[|db| - 1]]
  }

  function Diff(file: seq<Role>, db: seq<Record>, adopt: bool): Plan {
    var t := ByName(db);
    Plan(Select(file, t, adopt, ToAdd), Select(file, t, adopt, ToUpdate),
         SortStrings(Orphans(db, file)), SortStrings(Names(Select(file, t, adopt, InConflict))))
  }

  method IndexRows(db: seq<Record>) returns (dbByName: Table)
    ensures dbByName == ByName(db)
  {
    dbByName := map[];
    for i := 0 to |db|
      invariant dbByName == ByName(db[..i])
    {
      assert db[..i + 1][..i] == db[..i];
      dbByName := dbByName[db[i].role.name := db[i]];
    }
    assert db[..|db|] == db;
  }

  method CollectOrphans(db: seq<Record>, ghost file: seq<Role>, inFile: set<string>) returns (prune: seq<string>)
    requires forall n :: n in inFile <==> HasName(file, n)
    ensures prune == Orphans(db, file)
  {
    prune := [];
    for i := 0 to |db|
      invariant prune == Orphans(db[..i], file)
    {
      assert db[..i + 1][..i] == db[..i];
      if db[i].source == CONFIG && db[i].role.name !in inFile {
        prune := prune + [db[i].role.name];
      }
    }
    assert db[..|db|] == db;
  }

  /** What one more file role adds to the plan. */
  lemma {:induction false} PlanStep(file: seq<Role>, i: nat, t: Table, adopt: bool)
    requires i < |file|
    ensures
      var c := Classify(file[i], t, adopt);
      var r := [file[i]];
      var before, after := file[..i], file[..i + 1];
      && Select(after, t, adopt, ToAdd) == Select(before, t, adopt, ToAdd) + (if c == ToAdd then r else [])
      && Select(after, t, adopt, ToUpdate) == Select(before, t, adopt, ToUpdate) + (if c == ToUpdate then r else [])
      && Names(Select(after, t, adopt, InConflict))
         == Names(Select(before, t, adopt, InConflict)) + (if c == InConflict then [file[i].name] else [])
  {
    assert file[..i + 1][..i] == file[..i];
    var conflicts := Select(file[..i], t, adopt, InConflict);
    NamesSnoc(conflicts, file[i]);
    assert conflicts + [] == conflicts;
  }

  /** The pass over the file: which roles to add and update, which names conflict, and all names. */
  method ClassifyFile(file: seq<Role>, dbByName: Table, adopt: bool)
    returns (add: seq<Role>, update: seq<Role>, conflicts: seq<string>, inFile: set<string>)
    ensures forall n :: n in inFile <==> HasName(file, n)
    ensures add == Select(file, dbByName, adopt, ToAdd) && update == Select(file, dbByName, adopt, ToUpdate)
    ensures conflicts == Names(Select(file, dbByName, adopt, InConflict))
  {
    add, update, conflicts, inFile := [], [], [], {};
    for i := 0 to |file|
      invariant forall n :: n in inFile <==> HasName(file[..i], n)
      invariant add == Select(file[..i], dbByName, adopt, ToAdd)
      invariant update == Select(file[..i], dbByName, adopt, ToUpdate)
      invariant conflicts == Names(Select(file[..i], dbByName, adopt, InConflict))
    {
      PlanStep(file, i, dbByName, adopt);
      HasNameSnoc(file, i);
      var r := file[i];
      inFile := inFile + {r.name};
      if r.name !in dbByName {
        add := add + [r];
      } else if dbByName[r.name].source == PORTAL {
        if !adopt {
          conflicts := conflicts + [r.name];
        } else {
          update := update + [r];
        }
      } else if !RoleEqual(dbByName[r.name].role, r) {
        update := update + [r];
      }
    }
    assert file[..|file|] == file;
  }

  method DiffRoles(file: seq<Role>, db: seq<Record>, adopt: bool) returns (plan: Plan)
    ensures plan == Diff(file, db, adopt)
  {
    var dbByName := IndexRows(db);
    var add, update, conflicts, inFile := ClassifyFile(file, dbByName, adopt);
    var prune := CollectOrphans(db, file, inFile);
    plan := Plan(add, update, SortStrings(prune), SortStrings(conflicts));
  }

  lemma HasNameSnoc(file: seq<Role>, i: nat)
    requires i < |file|
    ensures forall n :: HasName(file[..i + 1], n) <==> HasName(file[..i], n) || n == file[i].name
  {
    forall n ensures HasName(file[..i + 1], n) <==> HasName(file[..i], n) || n == file[i].name {
      if HasName(file[..i], n) {
        var k :| 0 <= k < i && file[..i][k].name == n;
        assert file[..i + 1][k].name == n;
      }
      assert file[..i + 1][i] == file[i];
    }
  }

  lemma {:induction false} NamesSnoc(rs: seq<Role>, r: Role)
    ensures Names(rs + [r]) == Names(rs) + [r.name]
  {
    assert (rs + [r])[..|rs|] == rs;
  }

  // -------------------------------------------------------------------------------------
  // Applying
  // -------------------------------------------------------------------------------------

  datatype Op = AddOp(role: Role) | UpdateOp(role: Role) | PruneOp(name: string)

  function OpName(op: Op): string {
    match op
    case AddOp(r) => r.name
    case UpdateOp(r) => r.name
    case PruneOp(n) => n
  }

  function AddOps(rs: seq<Role>): seq<Op> {
    seq(|rs|, i requires 0 <= i < |rs| => AddOp(rs[i]))
  }

  function UpdateOps(rs: seq<Role>): seq<Op> {
    seq(|rs|, i requires 0 <= i < |rs| => UpdateOp(rs[i]))
  }

  function PruneOps(ns: seq<string>): seq<Op> {
    seq(|ns|, i requires 0 <= i < |ns| => PruneOp(ns[i]))
  }

  /** The writes of a plan, in order: additions, updates, then deletions if asked for. */
  function Ops(p: Plan, prune: bool): seq<Op> {
    AddOps(p.add) + UpdateOps(p.update) + (if prune then PruneOps(p.prune) else [])
  }

  function ApplyOp(t: Table, op: Op): Result<Table, TableError> {
    match op
    case AddOp(r) => Added(t, r, CONFIG)
    case UpdateOp(r) => Replaced(t, r.name, r, CONFIG)
    case PruneOp(n) => Deleted(t, n)
  }

  /** The table after the writes, stopping at the first that fails, and whether all succeeded. */
  function ApplyAll(t: Table, ops: seq<Op>): (Table, bool) {
    if ops == [] then (t, true)
    else
      var (before, ok) := ApplyAll(t, ops[..|ops| - 1]);
      if !ok then (before, false)
      else
        var r := ApplyOp(before, ops[|ops| - 1]);
        if r.Ok? then (r.value, true) else (before, false)
  }

  datatype Applied = Applied(added: nat, updated: nat, pruned: nat)

  /** The first `k` writes succeeded, numbered from `from` and none of them faulted, and left `now`. */
  predicate StoppedSoFar(t: Table, ops: seq<Op>, faults: set<nat>, from: nat, k: nat, now: Table) {
    && k <= |ops| && ApplyAll(t, ops[..k]) == (now, true)
    && (forall i :: from <= i < from + k ==> i !in faults)
  }

  /** And the next one, if there is one, faulted or was refused. */
  predicate StoppedAt(t: Table, ops: seq<Op>, faults: set<nat>, from: nat, k: nat, now: Table) {
    && StoppedSoFar(t, ops, faults, from, k, now)
    && (k < |ops| ==> from + k in faults || ApplyOp(now, ops[k]).Err?)
  }

  /** The counts never exceed the plan, add up to the writes made, and later kinds of write are counted
      only when the earlier ones are complete. */
  lemma CountsExactly(p: Plan, k: nat)
    requires k <= |p.add| + |p.update| + |p.prune|
    ensures
      var ap := Counts(p, k);
      && ap.added + ap.updated + ap.pruned == k
      && ap.added <= |p.add| && ap.updated <= |p.update| && ap.pruned <= |p.prune|
      && (ap.updated > 0 ==> ap.added == |p.add|) && (ap.pruned > 0 ==> ap.added == |p.add| && ap.updated == |p.update|)
  {
  }

  method AddRoles(roles: seq<Role>, rs: RoleStore, faults: set<nat>, from: nat) returns (done: nat, ok: bool)
    modifies rs
    ensures StoppedAt(old(rs.rows), AddOps(roles), faults, from, done, rs.rows) && (ok <==> done == |roles|)
  {
    done, ok := 0, true;
    ghost var ops := AddOps(roles);
    for i := 0 to |roles|
      invariant done == i && StoppedSoFar(old(rs.rows), ops, faults, from, i, rs.rows)
    {
      assert ops[..i + 1][..i] == ops[..i];
      var r := rs.Add(roles[i], CONFIG, from + i in faults);
      if r.Err? {
        return done, false;
      }
      done := done + 1;
    }
  }

  method UpdateRoles(roles: seq<Role>, rs: RoleStore, faults: set<nat>, from: nat) returns (done: nat, ok: bool)
    modifies rs
    ensures StoppedAt(old(rs.rows), UpdateOps(roles), faults, from, done, rs.rows) && (ok <==> done == |roles|)
  {
    done, ok := 0, true;
    ghost var ops := UpdateOps(roles);
    for i := 0 to |roles|
      invariant done == i && StoppedSoFar(old(rs.rows), ops, faults, from, i, rs.rows)
    {
      assert ops[..i + 1][..i] == ops[..i];
      var r := rs.Replace(roles[i].name, roles[i], CONFIG, from + i in faults);
      if r.Err? {
        return done, false;
      }
      done := done + 1;
    }
  }

  method PruneRoles(names: seq<string>, rs: RoleStore, faults: set<nat>, from: nat) returns (done: nat, ok: bool)
    modifies rs
    ensures StoppedAt(old(rs.rows), PruneOps(names), faults, from, done, rs.rows) && (ok <==> done == |names|)
  {
    done, ok := 0, true;
    ghost var ops := PruneOps(names);
    for i := 0 to |names|
      invariant done == i && StoppedSoFar(old(rs.rows), ops, faults, from, i, rs.rows)
    {
      assert ops[..i + 1][..i] == ops[..i];
      var r := rs.Delete(names[i], from + i in faults);
      if r.Err? {
        return done, false;
      }
      done := done + 1;
    }
  }

  /** The counts after the first `k` writes of a plan. */
  function Counts(p: Plan, k: nat): Applied {
    var adds, updates := |p.add|, |p.add| + |p.update|;
    Applied(if k < adds then k else adds,
            if k < adds then 0 else if k < updates then k - adds else |p.update|,
            if k < updates then 0 else k - updates)
  }

  /** The first two loops: all additions and updates made, or stopped among them. */
  method AddAndUpdate(p: Plan, rs: RoleStore, ghost prune: bool, faults: set<nat>) returns (added: nat, updated: nat, ok: bool)
    modifies rs
    ensures Counts(p, added + updated) == Applied(added, updated, 0)
    ensures StoppedSoFar(old(rs.rows), Ops(p, prune), faults, 0, added + updated, rs.rows)
    ensures ok <==> added == |p.add| && updated == |p.update|
    ensures !ok || !prune ==>
      && StoppedAt(old(rs.rows), Ops(p, prune), faults, 0, added + updated, rs.rows)
      && (ok <==> added + updated == |Ops(p, prune)|)
  {
    ghost var t := rs.rows;
    updated := 0;
    added, ok := AddRoles(p.add, rs, faults, 0);
    StoppedInAdds(p, prune, t, faults, added, rs.rows);
    if ok {
      ghost var t1 := rs.rows;
      updated, ok := UpdateRoles(p.update, rs, faults, |p.add|);
      StoppedInUpdates(p, prune, t, faults, t1, updated, rs.rows);
    }
  }

  /** Makes the plan's writes in order up to the first that faults or is refused, numbering them
      from 0: the table is as the writes before it left it, and the counts are theirs. */
  method ApplyRoles(p: Plan, rs: RoleStore, prune: bool, faults: set<nat>) returns (ap: Applied, ok: bool, ghost k: nat)
    modifies rs
    ensures StoppedAt(old(rs.rows), Ops(p, prune), faults, 0, k, rs.rows)
    ensures (ok <==> k == |Ops(p, prune)|) && ap == Counts(p, k)
  {
    ghost var t := rs.rows;
    var added, updated, done := AddAndUpdate(p, rs, prune, faults);
    if !done || !prune {
      return Applied(added, updated, 0), done, added + updated;
    }
    var pruned;
    pruned, ok, k := PruneLast(p, rs, faults, t);
    ap := Applied(added, updated, pruned);
  }

  /** The third loop, after all additions and updates to `t`. */
  method PruneLast(p: Plan, rs: RoleStore, faults: set<nat>, ghost t: Table) returns (pruned: nat, ok: bool, ghost k: nat)
    requires StoppedSoFar(t, Ops(p, true), faults, 0, |p.add| + |p.update|, rs.rows)
    modifies rs
    ensures StoppedAt(t, Ops(p, true), faults, 0, k, rs.rows)
    ensures (ok <==> k == |Ops(p, true)|) && Counts(p, k) == Applied(|p.add|, |p.update|, pruned)
  {
    ghost var t2 := rs.rows;
    pruned, ok := PruneRoles(p.prune, rs, faults, |p.add| + |p.update|);
    StoppedInPrunes(p, t, faults, t2, pruned, rs.rows);
    k := |p.add| + |p.update| + pruned;
  }

  lemma {:induction false} StoppedInAdds(p: Plan, prune: bool, t: Table, faults: set<nat>, k: nat, now: Table)
    requires StoppedAt(t, AddOps(p.add), faults, 0, k, now)
    ensures StoppedSoFar(t, Ops(p, prune), faults, 0, k, now)
    ensures k < |p.add| ==> StoppedAt(t, Ops(p, prune), faults, 0, k, now)
  {
    var adds, rest := AddOps(p.add), UpdateOps(p.update) + if prune then PruneOps(p.prune) else [];
    assert Ops(p, prune) == [] + adds + rest;
    StoppedWithin(t, [], adds, rest, Ops(p, prune), faults, t, k, now);
  }

  lemma {:induction false} StoppedInUpdates(p: Plan, prune: bool, t: Table, faults: set<nat>, t1: Table, k: nat, now: Table)
    requires StoppedSoFar(t, Ops(p, prune), faults, 0, |p.add|, t1)
    requires StoppedAt(t1, UpdateOps(p.update), faults, |p.add|, k, now)
    ensures StoppedSoFar(t, Ops(p, prune), faults, 0, |p.add| + k, now)
    ensures k < |p.update| || !prune ==> StoppedAt(t, Ops(p, prune), faults, 0, |p.add| + k, now)
  {
    var rest := if prune then PruneOps(p.prune) else [];
    StoppedWithin(t, AddOps(p.add), UpdateOps(p.update), rest, Ops(p, prune), faults, t1, k, now);
  }

  lemma {:induction false} StoppedInPrunes(p: Plan, t: Table, faults: set<nat>, t2: Table, k: nat, now: Table)
    requires StoppedSoFar(t, Ops(p, true), faults, 0, |p.add| + |p.update|, t2)
    requires StoppedAt(t2, PruneOps(p.prune), faults, |p.add| + |p.update|, k, now)
    ensures StoppedAt(t, Ops(p, true), faults, 0, |p.add| + |p.update| + k, now)
    ensures k == |p.prune| <==> |p.add| + |p.update| + k == |Ops(p, true)|
    ensures Counts(p, |p.add| + |p.update| + k) == Applied(|p.add|, |p.update|, k)
  {
    var a, b := AddOps(p.add) + UpdateOps(p.update), PruneOps(p.prune);
    assert Ops(p, true) == a + b + [];
    StoppedWithin(t, a, b, [], Ops(p, true), faults, t2, k, now);
  }

  /** Stopping inside the middle part, after all of the first, is stopping in the whole. */
  lemma {:induction false} StoppedWithin(t: Table, a: seq<Op>, b: seq<Op>, c: seq<Op>, ops: seq<Op>, faults: set<nat>,
                                         t1: Table, k: nat, now: Table)
    requires ops == a + b + c
    requires StoppedSoFar(t, ops, faults, 0, |a|, t1) && StoppedAt(t1, b, faults, |a|, k, now)
    ensures StoppedSoFar(t, ops, faults, 0, |a| + k, now)
    ensures k < |b| || c == [] ==> StoppedAt(t, ops, faults, 0, |a| + k, now)
  {
    assert ops[..|a|] == a && ops[..|a| + k] == a + b[..k];
    ApplyConcat(t, a, b[..k]);
    if k < |b| {
      assert ops[|a| + k] == b[k];
    }
  }

  /** With no fault, the writes made are those of the plan up to the first refused. */
  lemma {:induction false} NoFaults(t: Table, ops: seq<Op>, k: nat, now: Table)
    requires StoppedAt(t, ops, {}, 0, k, now)
    ensures ApplyAll(t, ops) == (now, k == |ops|)
  {
    if k < |ops| {
      assert ops[..k + 1][..k] == ops[..k];
      FailureStops(t, ops, k + 1);
    } else {
      assert ops[..k] == ops;
    }
  }

  lemma {:induction false} ApplyConcat(t: Table, a: seq<Op>, b: seq<Op>)
    ensures ApplyAll(t, a + b) == if ApplyAll(t, a).1 then ApplyAll(ApplyAll(t, a).0, b) else ApplyAll(t, a)
    decreases |b|
  {
    if b == [] {
      assert a + b == a;
    } else {
      ApplyConcat(t, a, b[..|b| - 1]);
      assert (a + b)[..|a + b| - 1] == a + b[..|b| - 1];
    }
  }

  /** Once a write has failed, the rest change nothing. */
  lemma {:induction false} FailureStops(t: Table, ops: seq<Op>, k: nat)
    requires k <= |ops| && !ApplyAll(t, ops[..k]).1
    ensures ApplyAll(t, ops) == ApplyAll(t, ops[..k])
    decreases |ops|
  {
    if k < |ops| {
      assert ops[..|ops| - 1][..k] == ops[..k];
      FailureStops(t, ops[..|ops| - 1], k);
    } else {
      assert ops[..k] == ops;
    }
  }
}
