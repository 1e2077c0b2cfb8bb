/** Reconcile of files that may repeat names: where a run leaves each row, and exactly when it
    leaves nothing for the next. */
module AnyFile {
  import opened Wrappers
  import opened Roles
  import opened Sorting
  import opened RoleTable
  import opened Reconcile
  import opened Convergence

  lemma RoleEqualJoins(a: Role, b: Role, c: Role)
    requires RoleEqual(a, b) && RoleEqual(a, c)
    ensures RoleEqual(b, c)
  {
  }

  // -------------------------------------------------------------------------------------
  // Where the writes leave each row
  // -------------------------------------------------------------------------------------

  /** A row after roles were written under their names, the last of each name winning. */
  function Over(rs: seq<Role>, have: Option<Record>, n: string): Option<Record> {
    if Wanted(rs, n).Some? then Some(Record(Wanted(rs, n).value, CONFIG)) else have
  }

  lemma {:induction false} OverSnoc(front: seq<Role>, r: Role, have: Option<Record>, n: string)
    ensures Over(front + [r], have, n) == if n == r.name then Some(Record(r, CONFIG)) else Over(front, have, n)
  {
    assert (front + [r])[..|front + [r]| - 1] == front;
  }

  lemma {:induction false} AddsLeave(t: Table, rs: seq<Role>, n: string)
    requires ApplyAll(t, AddOps(rs)).1
    ensures RowOf(ApplyAll(t, AddOps(rs)).0, n) == Over(rs, RowOf(t, n), n)
  {
    if rs != [] {
      var front, r := rs[..|rs| - 1], rs[|rs| - 1];
      assert rs == front + [r] && AddOps(rs)[..|rs| - 1] == AddOps(front);
      AddsLeave(t, front, n);
      OverSnoc(front, r, RowOf(t, n), n);
    }
  }

  lemma {:induction false} UpdatesLeave(t: Table, rs: seq<Role>, n: string)
    requires ApplyAll(t, UpdateOps(rs)).1
    ensures RowOf(ApplyAll(t, UpdateOps(rs)).0, n) == Over(rs, RowOf(t, n), n)
  {
    if rs != [] {
      var front, r := rs[..|rs| - 1], rs[|rs| - 1];
      assert rs == front + [r] && UpdateOps(rs)[..|rs| - 1] == UpdateOps(front);
      UpdatesLeave(t, front, n);
      OverSnoc(front, r, RowOf(t, n), n);
    }
  }

  lemma {:induction false} PrunesLeave(t: Table, ns: seq<string>, n: string)
    requires ApplyAll(t, PruneOps(ns)).1
    ensures RowOf(ApplyAll(t, PruneOps(ns)).0, n) == if n in ns then None else RowOf(t, n)
  {
    if ns != [] {
      var front, last := ns[..|ns| - 1], ns[|ns| - 1];
      assert ns == front + [last] && PruneOps(ns)[..|ns| - 1] == PruneOps(front);
      PrunesLeave(t, front, n);
    }
  }

  lemma {:induction false} ApplyKeepsKeys(t: Table, ops: seq<Op>)
    requires KeyedByName(t)
    ensures KeyedByName(ApplyAll(t, ops).0)
  {
    if ops != [] {
      ApplyKeepsKeys(t, ops[..|ops| - 1]);
    }
  }

  /** The row a whole plan leaves under a name. */
  function Left(p: Plan, prune: bool, have: Option<Record>, n: string): Option<Record> {
    if prune && n in p.prune then None else Over(p.update, Over(p.add, have, n), n)
  }

  lemma {:induction false} PlanLeaves(t: Table, p: Plan, prune: bool, n: string)
    requires ApplyAll(t, Ops(p, prune)).1
    ensures RowOf(ApplyAll(t, Ops(p, prune)).0, n) == Left(p, prune, RowOf(t, n), n)
  {
    var adds, updates, prunes := AddOps(p.add), UpdateOps(p.update), if prune then PruneOps(p.prune) else [];
    ApplyConcat(t, adds, updates);
    ApplyConcat(t, adds + updates, prunes);
    var t1 := ApplyAll(t, adds).0;
    AddsLeave(t, p.add, n);
    UpdatesLeave(t1, p.update, n);
    if prune {
      PrunesLeave(ApplyAll(t1, updates).0, p.prune, n);
    }
  }

  // -------------------------------------------------------------------------------------
  // What the next diff finds
  // -------------------------------------------------------------------------------------

  /** The portal holds the name and keeps it. */
  predicate HeldByPortal(t: Table, adopt: bool, n: string) {
    n in t && t[n].source == PORTAL && !adopt
  }

  /** File roles of one name agree, unless the portal keeps that name. */
  predicate Agreeing(file: seq<Role>, t: Table, adopt: bool) {
    forall i, j :: 0 <= i < |file| && 0 <= j < |file| ==>
      file[i].name == file[j].name && !HeldByPortal(t, adopt, file[i].name) ==> RoleEqual(file[i], file[j])
  }

  /** Nothing to write for this role. */
  predicate Settled(r: Role, t: Table, adopt: bool) {
    Classify(r, t, adopt) == Unchanged || Classify(r, t, adopt) == InConflict
  }

  lemma {:induction false} SelectsNone(file: seq<Role>, t: Table, adopt: bool, c: Class)
    ensures Select(file, t, adopt, c) == [] <==> forall i :: 0 <= i < |file| ==> Classify(file[i], t, adopt) != c
  {
    if file != [] {
      SelectsNone(file[..|file| - 1], t, adopt, c);
    }
  }

  lemma {:induction false} NothingSelected(file: seq<Role>, t: Table, adopt: bool)
    ensures Select(file, t, adopt, ToAdd) == [] && Select(file, t, adopt, ToUpdate) == []
            <==> forall i :: 0 <= i < |file| ==> Settled(file[i], t, adopt)
  {
    SelectsNone(file, t, adopt, ToAdd);
    SelectsNone(file, t, adopt, ToUpdate);
  }

  /** The next diff writes nothing exactly if every file role is settled and, when pruning, no row
      is an orphan. */
  lemma {:induction false} NextEmpty(file: seq<Role>, t: Table, db: seq<Record>, adopt: bool, prune: bool)
    requires KeyedByName(t) && Lists(db, t)
    ensures Ops(Diff(file, db, adopt), prune) == [] <==>
      && (forall i :: 0 <= i < |file| ==> Settled(file[i], t, adopt))
      && (prune ==> forall n :: n in t && t[n].source == CONFIG ==> HasName(file, n))
  {
    var p := Diff(file, db, adopt);
    ByNameIsTable(db, t);
    NothingSelected(file, t, adopt);
    PrunedNames(file, t, db);
    if p.prune != [] {
      assert p.prune[0] in p.prune;
    }
  }

  // -------------------------------------------------------------------------------------
  // The theorem
  // -------------------------------------------------------------------------------------

  /** The row a run leaves under the name of a file role that the portal does not keep: a file role
      of that name, or a row that already equals this one. */
  lemma {:induction false} RowForRole(file: seq<Role>, t: Table, adopt: bool, i: nat, row: Option<Record>)
    requires i < |file| && !HeldByPortal(t, adopt, file[i].name)
    requires
      var n := file[i].name;
      row == Over(Select(file, t, adopt, ToUpdate), Over(Select(file, t, adopt, ToAdd), RowOf(t, n), n), n)
    ensures row.Some? && row.value.source != PORTAL
    ensures (row.value.role in file && row.value.role.name == file[i].name) || RoleEqual(row.value.role, file[i])
  {
    var n := file[i].name;
    var add, update := Select(file, t, adopt, ToAdd), Select(file, t, adopt, ToUpdate);
    SelectMembers(file, t, adopt, ToAdd);
    SelectMembers(file, t, adopt, ToUpdate);
    assert file[i] in file;
    if file[i] in add {
      NamedInFile(add, file[i]);
    }
    if file[i] in update {
      NamedInFile(update, file[i]);
    }
  }

  /** The row under a name the portal keeps is as it was. */
  lemma {:induction false} RowForConflict(file: seq<Role>, t: Table, adopt: bool, n: string)
    requires HeldByPortal(t, adopt, n)
    ensures Over(Select(file, t, adopt, ToUpdate), Over(Select(file, t, adopt, ToAdd), RowOf(t, n), n), n) == RowOf(t, n)
  {
    SelectMembers(file, t, adopt, ToAdd);
    SelectMembers(file, t, adopt, ToUpdate);
  }

  /** What a finished run leaves: a file role is settled exactly if the portal keeps its name or the
      row left there equals it. */
  lemma {:induction false} SettledAfter(file: seq<Role>, t: Table, db: seq<Record>, adopt: bool, prune: bool, i: nat)
    requires KeyedByName(t) && Lists(db, t) && i < |file|
    requires ApplyAll(t, Ops(Diff(file, db, adopt), prune)).1
    ensures
      var t' := ApplyAll(t, Ops(Diff(file, db, adopt), prune)).0;
      var n := file[i].name;
      && n in t'
      && (HeldByPortal(t, adopt, n) ==> Settled(file[i], t', adopt))
      && (!HeldByPortal(t, adopt, n) ==>
            && (Settled(file[i], t', adopt) <==> RoleEqual(t'[n].role, file[i]))
            && ((t'[n].role in file && t'[n].role.name == n) || RoleEqual(t'[n].role, file[i])))
  {
    var p := Diff(file, db, adopt);
    var n := file[i].name;
    ByNameIsTable(db, t);
    PrunedNames(file, t, db);
    NamedInFile(file, file[i]);
    PlanLeaves(t, p, prune, n);
    if HeldByPortal(t, adopt, n) {
      RowForConflict(file, t, adopt, n);
    } else {
      RowForRole(file, t, adopt, i, Left(p, prune, RowOf(t, n), n));
    }
  }

  lemma {:induction false} NoOrphanAfter(file: seq<Role>, t: Table, db: seq<Record>, adopt: bool, n: string)
    requires KeyedByName(t) && Lists(db, t) && ApplyAll(t, Ops(Diff(file, db, adopt), true)).1
    ensures
      var t' := ApplyAll(t, Ops(Diff(file, db, adopt), true)).0;
      n in t' && t'[n].source == CONFIG ==> HasName(file, n)
  {
    var p := Diff(file, db, adopt);
    ByNameIsTable(db, t);
    PrunedNames(file, t, db);
    PlanLeaves(t, p, true, n);
    SelectMembers(file, t, adopt, ToAdd);
    SelectMembers(file, t, adopt, ToUpdate);
    if Wanted(p.update, n).Some? {
      NamedInFile(file, Wanted(p.update, n).value);
    } else if Wanted(p.add, n).Some? {
      NamedInFile(file, Wanted(p.add, n).value);
    }
  }

  /** For any file at all: a run succeeds and leaves nothing for the next diff to write if and only
      if the roles the table lacks have non-empty, different names, and the file roles of each name
      agree unless the portal keeps that name. */
  lemma {:induction false} ConvergesExactly(file: seq<Role>, t: Table, db: seq<Record>, adopt: bool, prune: bool, next: seq<Record>)
    requires KeyedByName(t) && Lists(db, t)
    requires Lists(next, ApplyAll(t, Ops(Diff(file, db, adopt), prune)).0)
    ensures
      var p := Diff(file, db, adopt);
      ApplyAll(t, Ops(p, prune)).1 && Ops(Diff(file, next, adopt), prune) == []
      <==> UniqueNames(p.add) && !HasName(p.add, "") && Agreeing(file, t, adopt)
  {
    AppliesExactly(file, t, db, adopt, prune);
    ApplyKeepsKeys(t, Ops(Diff(file, db, adopt), prune));
    var (t', ok) := ApplyAll(t, Ops(Diff(file, db, adopt), prune));
    if ok {
      NextEmpty(file, t', next, adopt, prune);
      forall n | prune && n in t' && t'[n].source == CONFIG ensures HasName(file, n) {
        NoOrphanAfter(file, t, db, adopt, n);
      }
      SettledIffAgreeing(file, t, db, adopt, prune);
    }
  }

  lemma {:induction false} SettledIffAgreeing(file: seq<Role>, t: Table, db: seq<Record>, adopt: bool, prune: bool)
    requires KeyedByName(t) && Lists(db, t) && ApplyAll(t, Ops(Diff(file, db, adopt), prune)).1
    ensures
      var t' := ApplyAll(t, Ops(Diff(file, db, adopt), prune)).0;
      (forall i :: 0 <= i < |file| ==> Settled(file[i], t', adopt)) <==> Agreeing(file, t, adopt)
  {
    var t' := ApplyAll(t, Ops(Diff(file, db, adopt), prune)).0;
    if forall i :: 0 <= i < |file| ==> Settled(file[i], t', adopt) {
      forall i, j | 0 <= i < |file| && 0 <= j < |file|
        ensures file[i].name == file[j].name && !HeldByPortal(t, adopt, file[i].name) ==> RoleEqual(file[i], file[j])
      {
        if file[i].name == file[j].name && !HeldByPortal(t, adopt, file[i].name) {
          SettledAfter(file, t, db, adopt, prune, i);
          SettledAfter(file, t, db, adopt, prune, j);
          RoleEqualJoins(t'[file[i].name].role, file[i], file[j]);
        }
      }
    }
    if Agreeing(file, t, adopt) {
      forall i | 0 <= i < |file| ensures Settled(file[i], t', adopt) {
        SettledAfter(file, t, db, adopt, prune, i);
        var row := t'[file[i].name].role;
        if !HeldByPortal(t, adopt, file[i].name) && row in file && row.name == file[i].name {
          var k :| 0 <= k < |file| && file[k] == row;
          assert RoleEqual(file[k], file[i]);
        }
      }
    }
  }

  /** It does happen: a file that gives a new role twice, to an empty table. The run stops at the
      second addition, having made the first. */
  lemma {:induction false} RepeatedRoleFails(r: Role, adopt: bool, prune: bool)
    requires r.name != ""
    ensures ApplyAll(map[], Ops(Diff([r, r], [], adopt), prune)) == (map[r.name := Record(r, CONFIG)], false)
  {
    var p := Diff([r, r], [], adopt);
    assert [r, r][..1] == [r] && [r][..0] == [];
    assert Select([r], map[], adopt, ToAdd) == Select([], map[], adopt, ToAdd) + [r];
    assert p.add == [r] + [r];
    var one := map[r.name := Record(r, CONFIG)];
    assert AddOps(p.add)[..2] == [AddOp(r), AddOp(r)];
    var ops := Ops(p, prune);
    assert ops[..2] == [AddOp(r), AddOp(r)] && ops[..2][..1] == [AddOp(r)] && [AddOp(r)][..0] == [];
    assert ApplyAll(map[], []) == (map[], true);
    assert ApplyAll(map[], [AddOp(r)]) == (one, true);
    assert ApplyAll(map[], ops[..2]) == (one, false);
    FailureStops(map[], ops, 2);
  }

  /** And a file that gives an existing role twice, differently: every run succeeds and each leaves
      an update for the next. */
  lemma {:induction false} RepeatedRoleChurns(a: Role, b: Role, t: Table, db: seq<Record>, next: seq<Record>, adopt: bool, prune: bool)
    requires a.name == b.name && !RoleEqual(a, b)
    requires KeyedByName(t) && Lists(db, t) && a.name in t && !HeldByPortal(t, adopt, a.name)
    requires Lists(next, ApplyAll(t, Ops(Diff([a, b], db, adopt), prune)).0)
    ensures ApplyAll(t, Ops(Diff([a, b], db, adopt), prune)).1 && Ops(Diff([a, b], next, adopt), prune) != []
  {
    AppliesExactly([a, b], t, db, adopt, prune);
    ByNameIsTable(db, t);
    SelectsNone([a, b], t, adopt, ToAdd);
    ConvergesExactly([a, b], t, db, adopt, prune, next);
    assert !RoleEqual([a, b][0], [a, b][1]);
  }
}
