/** Reconcile converges: what the table holds after a run, after a run cut short, and after the
    next run. */
module Convergence {
  import opened Wrappers
  import opened Roles
  import opened Sorting
  import opened RoleTable
  import opened Reconcile

  function RowOf(t: Table, n: string): Option<Record> {
    if n in t then Some(t[n]) else None
  }

  /** The file's role of that name. */
  function Wanted(file: seq<Role>, n: string): (r: Option<Role>)
    ensures r.Some? ==> r.value.name == n && r.value in file
    ensures r.None? <==> !HasName(file, n)
  {
    if file == [] then None
    else
      var k := |file| - 1;
      if file[k].name == n then Some(file[k])
      else
        var r := Wanted(file[..k], n);
        assert HasName(file, n) <==> HasName(file[..k], n) by { HasNameSnoc(file, k); assert file[..k + 1] == file; }
        r
  }

  /** What reconcile is for, row by row: file roles are present and equal (and owned by the files)
      unless the portal owns the name and adoption is off; with pruning, rows the files own and do
      not mention are gone; every other row is as it was. */
  function Goal(file: seq<Role>, have: Option<Record>, adopt: bool, prune: bool, n: string): Option<Record> {
    var want := Wanted(file, n);
    if want.Some? then
      if have.None? then Some(Record(want.value, CONFIG))
      else if have.value.source == PORTAL then (if adopt then Some(Record(want.value, CONFIG)) else have)
      else if RoleEqual(have.value.role, want.value) then have
      else Some(Record(want.value, CONFIG))
    else if have.Some? && have.value.source == CONFIG && prune then None
    else have
  }

  // -------------------------------------------------------------------------------------
  // What the diff selects
  // -------------------------------------------------------------------------------------

  lemma {:induction false} SelectMembers(file: seq<Role>, t: Table, adopt: bool, c: Class)
    ensures forall r :: r in Select(file, t, adopt, c) <==> r in file && Classify(r, t, adopt) == c
  {
    if file != [] {
      SelectMembers(file[..|file| - 1], t, adopt, c);
      assert file == file[..|file| - 1] + [file[|file| - 1]];
    }
  }

  lemma {:induction false} SelectUnique(file: seq<Role>, t: Table, adopt: bool, c: Class)
    requires UniqueNames(file)
    ensures UniqueNames(Select(file, t, adopt, c))
  {
    if file != [] {
      var front := file[..|file| - 1];
      SelectUnique(front, t, adopt, c);
      SelectMembers(front, t, adopt, c);
      var s := Select(front, t, adopt, c);
      forall i | 0 <= i < |s| ensures s[i].name != file[|file| - 1].name {
        assert s[i] in front;
      }
    }
  }

  lemma {:induction false} OrphansMembers(db: seq<Record>, file: seq<Role>)
    ensures forall n :: n in Orphans(db, file) <==> exists i :: 0 <= i < |db| && db[i].role.name == n && IsOrphan(db[i], file)
  {
    if db != [] {
      var front := db[..|db| - 1];
      OrphansMembers(front, file);
      forall n ensures n in Orphans(db, file) <==> exists i :: 0 <= i < |db| && db[i].role.name == n && IsOrphan(db[i], file) {
        if i :| 0 <= i < |db| && db[i].role.name == n && IsOrphan(db[i], file) {
          assert i < |front| ==> front[i] == db[i];
        }
        if n in Orphans(front, file) {
          var i :| 0 <= i < |front| && front[i].role.name == n && IsOrphan(front[i], file);
          assert db[i] == front[i];
        }
      }
    }
  }

  lemma {:induction false} OrphansCount(db: seq<Record>, file: seq<Role>, n: string)
    requires UniqueRecords(db)
    ensures multiset(Orphans(db, file))[n] <= 1
  {
    if db != [] {
      var front := db[..|db| - 1];
      OrphansCount(front, file, n);
      OrphansMembers(front, file);
      if db[|db| - 1].role.name == n {
        assert n !in Orphans(front, file);
        assert n !in multiset(Orphans(front, file));
      }
    }
  }

  lemma {:induction false} ByNameLists(db: seq<Record>)
    requires UniqueRecords(db)
    ensures forall i :: 0 <= i < |db| ==> db[i].role.name in ByName(db) && ByName(db)[db[i].role.name] == db[i]
    ensures forall n :: n in ByName(db) ==> ByName(db)[n] in db && ByName(db)[n].role.name == n
  {
    if db != [] {
      ByNameLists(db[..|db| - 1]);
    }
  }

  lemma {:induction false} ByNameIsTable(db: seq<Record>, t: Table)
    requires Lists(db, t) && KeyedByName(t)
    ensures ByName(db) == t
  {
    ByNameLists(db);
  }

  // -------------------------------------------------------------------------------------
  // The writes, one by one
  // -------------------------------------------------------------------------------------

  /** A write that can be made to the row as the table has it and takes it to the goal. */
  predicate Right(op: Op, file: seq<Role>, t: Table, adopt: bool, prune: bool) {
    var n := OpName(op);
    var goal := Goal(file, RowOf(t, n), adopt, prune, n);
    && n != ""
    && (n in t <==> !op.AddOp?)
    && goal == if op.PruneOp? then None else Some(Record(op.role, CONFIG))
  }

  predicate Touched(ops: seq<Op>, n: string) {
    exists i :: 0 <= i < |ops| && OpName(ops[i]) == n
  }

  predicate DistinctNames(ops: seq<Op>) {
    forall i, j :: 0 <= i < j < |ops| ==> OpName(ops[i]) != OpName(ops[j])
  }

  lemma WriteReachesGoal(file: seq<Role>, t: Table, adopt: bool, prune: bool, before: Table, op: Op)
    requires Right(op, file, t, adopt, prune) && RowOf(before, OpName(op)) == RowOf(t, OpName(op))
    ensures
      var r := ApplyOp(before, op);
      && r.Ok? && RowOf(r.value, OpName(op)) == Goal(file, RowOf(t, OpName(op)), adopt, prune, OpName(op))
      && forall n :: n != OpName(op) ==> RowOf(r.value, n) == RowOf(before, n)
  {
  }

  lemma TouchedSnoc(front: seq<Op>, op: Op, n: string)
    ensures Touched(front + [op], n) <==> Touched(front, n) || n == OpName(op)
  {
    var ops := front + [op];
    assert ops[|front|] == op;
    if Touched(front, n) {
      var i :| 0 <= i < |front| && OpName(front[i]) == n;
      assert OpName(ops[i]) == n;
    }
  }

  /** A set of right writes to different rows: none fails, and each row written is at its goal
      while each other row is untouched, after any number of them. */
  lemma {:induction false} WritesReachGoal(file: seq<Role>, t: Table, adopt: bool, prune: bool, ops: seq<Op>)
    requires DistinctNames(ops) && forall i :: 0 <= i < |ops| ==> Right(ops[i], file, t, adopt, prune)
    ensures
      var (t', ok) := ApplyAll(t, ops);
      ok && forall n :: RowOf(t', n) == if Touched(ops, n) then Goal(file, RowOf(t, n), adopt, prune, n) else RowOf(t, n)
  {
    if ops != [] {
      var front, op := ops[..|ops| - 1], ops[|ops| - 1];
      assert ops == front + [op];
      WritesReachGoal(file, t, adopt, prune, front);
      assert !Touched(front, OpName(op));
      WriteReachesGoal(file, t, adopt, prune, ApplyAll(t, front).0, op);
      forall n ensures Touched(ops, n) <==> Touched(front, n) || n == OpName(op) {
        TouchedSnoc(front, op, n);
      }
    }
  }

  /** The writes of a diff are right, touch different rows, and touch every row not at its goal. */
  lemma DiffIsRight(file: seq<Role>, t: Table, db: seq<Record>, adopt: bool, prune: bool)
    requires UniqueNames(file) && !HasName(file, "") && KeyedByName(t) && Lists(db, t)
    ensures
      var ops := Ops(Diff(file, db, adopt), prune);
      && DistinctNames(ops)
      && (forall i :: 0 <= i < |ops| ==> Right(ops[i], file, t, adopt, prune))
      && (forall n :: Touched(ops, n) <==> RowOf(t, n) != Goal(file, RowOf(t, n), adopt, prune, n))
  {
    RightWrites(file, t, db, adopt, prune);
    DistinctWrites(file, t, db, adopt, prune);
    EnoughWrites(file, t, db, adopt, prune);
  }

  lemma {:induction false} WantedUnique(file: seq<Role>, r: Role)
    requires UniqueNames(file) && r in file
    ensures Wanted(file, r.name) == Some(r)
  {
    var i :| 0 <= i < |file| && file[i] == r;
    assert HasName(file, r.name);
    var w := Wanted(file, r.name).value;
    var j :| 0 <= j < |file| && file[j] == w;
  }

  lemma {:induction false} PrunedNames(file: seq<Role>, t: Table, db: seq<Record>)
    requires KeyedByName(t) && Lists(db, t)
    ensures forall n :: n in SortStrings(Orphans(db, file)) <==> n in t && t[n].source == CONFIG && !HasName(file, n)
  {
    OrphansMembers(db, file);
    SortStringsSound(Orphans(db, file));
    forall n | n in t && t[n].source == CONFIG && !HasName(file, n) ensures n in Orphans(db, file) {
      assert t[n] in db;
      var i :| 0 <= i < |db| && db[i] == t[n];
    }
  }

  lemma {:induction false} RightAdd(file: seq<Role>, t: Table, adopt: bool, prune: bool, r: Role)
    requires UniqueNames(file) && !HasName(file, "") && r in Select(file, t, adopt, ToAdd)
    ensures Right(AddOp(r), file, t, adopt, prune)
  {
    SelectMembers(file, t, adopt, ToAdd);
    NamedInFile(file, r);
    WantedUnique(file, r);
  }

  lemma {:induction false} RightUpdate(file: seq<Role>, t: Table, adopt: bool, prune: bool, r: Role)
    requires UniqueNames(file) && !HasName(file, "") && r in Select(file, t, adopt, ToUpdate)
    ensures Right(UpdateOp(r), file, t, adopt, prune)
  {
    SelectMembers(file, t, adopt, ToUpdate);
    NamedInFile(file, r);
    WantedUnique(file, r);
  }

  /** A plan whose lists are each right has only right writes. */
  lemma RightPlan(p: Plan, file: seq<Role>, t: Table, adopt: bool, prune: bool)
    requires forall r :: r in p.add ==> Right(AddOp(r), file, t, adopt, prune)
    requires forall r :: r in p.update ==> Right(UpdateOp(r), file, t, adopt, prune)
    requires prune ==> forall n :: n in p.prune ==> Right(PruneOp(n), file, t, adopt, prune)
    ensures forall i :: 0 <= i < |Ops(p, prune)| ==> Right(Ops(p, prune)[i], file, t, adopt, prune)
  {
    var ops := Ops(p, prune);
    var a, b := |p.add|, |p.add| + |p.update|;
    forall i | 0 <= i < |ops| ensures Right(ops[i], file, t, adopt, prune) {
      if i < a {
        assert ops[i] == AddOp(p.add[i]);
      } else if i < b {
        assert ops[i] == UpdateOp(p.update[i - a]);
      } else {
        assert ops[i] == PruneOp(p.prune[i - b]);
      }
    }
  }

  lemma RightWrites(file: seq<Role>, t: Table, db: seq<Record>, adopt: bool, prune: bool)
    requires UniqueNames(file) && !HasName(file, "") && KeyedByName(t) && Lists(db, t)
    ensures
      var ops := Ops(Diff(file, db, adopt), prune);
      forall i :: 0 <= i < |ops| ==> Right(ops[i], file, t, adopt, prune)
  {
    var p := Diff(file, db, adopt);
    ByNameIsTable(db, t);
    forall r | r in p.add ensures Right(AddOp(r), file, t, adopt, prune) {
      RightAdd(file, t, adopt, prune, r);
    }
    forall r | r in p.update ensures Right(UpdateOp(r), file, t, adopt, prune) {
      RightUpdate(file, t, adopt, prune, r);
    }
    PrunedNames(file, t, db);
    RightPlan(p, file, t, adopt, prune);
  }

  lemma DistinctConcat(a: seq<Op>, b: seq<Op>)
    requires DistinctNames(a) && DistinctNames(b)
    requires forall i, j :: 0 <= i < |a| && 0 <= j < |b| ==> OpName(a[i]) != OpName(b[j])
    ensures DistinctNames(a + b)
  {
  }

  lemma {:induction false} DistinctPrunes(file: seq<Role>, db: seq<Record>)
    requires UniqueRecords(db)
    ensures DistinctNames(PruneOps(SortStrings(Orphans(db, file))))
  {
    var ns := SortStrings(Orphans(db, file));
    SortStringsSound(Orphans(db, file));
    forall i, j | 0 <= i < j < |ns| ensures ns[i] != ns[j] {
      OrphansCount(db, file, ns[i]);
      CountsDistinct(ns, i, j);
    }
  }

  /** Additions name absent rows, updates present ones, deletions none the file mentions. */
  lemma DistinctPlan(file: seq<Role>, t: Table, p: Plan, prune: bool)
    requires UniqueNames(p.add) && UniqueNames(p.update) && DistinctNames(PruneOps(p.prune))
    requires forall r :: r in p.add ==> r in file && r.name !in t
    requires forall r :: r in p.update ==> r in file && r.name in t
    requires forall n :: n in p.prune ==> !HasName(file, n)
    ensures DistinctNames(Ops(p, prune))
  {
    var adds, updates, prunes := AddOps(p.add), UpdateOps(p.update), PruneOps(p.prune);
    forall i, j | 0 <= i < |adds| && 0 <= j < |updates| ensures OpName(adds[i]) != OpName(updates[j]) {
      assert p.add[i] in p.add && p.update[j] in p.update;
    }
    DistinctConcat(adds, updates);
    if prune {
      var writes := adds + updates;
      forall i, j | 0 <= i < |writes| && 0 <= j < |prunes| ensures OpName(writes[i]) != OpName(prunes[j]) {
        var r := if i < |adds| then p.add[i] else p.update[i - |adds|];
        assert r in p.add || r in p.update;
        NamedInFile(file, r);
        assert p.prune[j] in p.prune;
      }
      DistinctConcat(writes, prunes);
    } else {
      assert adds + updates + [] == adds + updates;
    }
  }

  lemma DistinctWrites(file: seq<Role>, t: Table, db: seq<Record>, adopt: bool, prune: bool)
    requires UniqueNames(file) && KeyedByName(t) && Lists(db, t)
    ensures DistinctNames(Ops(Diff(file, db, adopt), prune))
  {
    ByNameIsTable(db, t);
    SelectMembers(file, t, adopt, ToAdd);
    SelectMembers(file, t, adopt, ToUpdate);
    SelectUnique(file, t, adopt, ToAdd);
    SelectUnique(file, t, adopt, ToUpdate);
    PrunedNames(file, t, db);
    DistinctPrunes(file, db);
    DistinctPlan(file, t, Diff(file, db, adopt), prune);
  }

  lemma NamedInFile(file: seq<Role>, r: Role)
    requires r in file
    ensures HasName(file, r.name)
  {
    var i :| 0 <= i < |file| && file[i] == r;
  }

  predicate Writes(p: Plan, prune: bool, n: string) {
    HasName(p.add, n) || HasName(p.update, n) || (prune && n in p.prune)
  }

  /** The rows a plan's writes touch are those its lists name. */
  lemma TouchedByPlan(p: Plan, prune: bool, n: string)
    ensures Touched(Ops(p, prune), n) <==> Writes(p, prune, n)
  {
    var ops := Ops(p, prune);
    var a, b := |p.add|, |p.add| + |p.update|;
    if i :| 0 <= i < |p.add| && p.add[i].name == n {
      assert ops[i] == AddOp(p.add[i]);
    }
    if i :| 0 <= i < |p.update| && p.update[i].name == n {
      assert ops[a + i] == UpdateOp(p.update[i]);
    }
    if prune && n in p.prune {
      var i :| 0 <= i < |p.prune| && p.prune[i] == n;
      assert ops[b + i] == PruneOp(n);
    }
    if i :| 0 <= i < |ops| && OpName(ops[i]) == n {
      assert i < a ==> p.add[i].name == n;
      assert a <= i < b ==> p.update[i - a].name == n;
      assert b <= i ==> prune && p.prune[i - b] == n;
    }
  }

  lemma EnoughWrites(file: seq<Role>, t: Table, db: seq<Record>, adopt: bool, prune: bool)
    requires UniqueNames(file) && KeyedByName(t) && Lists(db, t)
    ensures
      var ops := Ops(Diff(file, db, adopt), prune);
      forall n :: Touched(ops, n) <==> RowOf(t, n) != Goal(file, RowOf(t, n), adopt, prune, n)
  {
    var p := Diff(file, db, adopt);
    ByNameIsTable(db, t);
    PrunedNames(file, t, db);
    forall n ensures Touched(Ops(p, prune), n) <==> RowOf(t, n) != Goal(file, RowOf(t, n), adopt, prune, n) {
      TouchedByPlan(p, prune, n);
      SelectedNames(file, t, adopt, ToAdd, n);
      SelectedNames(file, t, adopt, ToUpdate, n);
      EnoughForRow(file, t, adopt, prune, n, HasName(p.add, n), HasName(p.update, n), n in p.prune);
    }
  }

  lemma {:induction false} EnoughForRow(file: seq<Role>, t: Table, adopt: bool, prune: bool, n: string, adds: bool, updates: bool, prunes: bool)
    requires KeyedByName(t)
    requires adds <==> Wanted(file, n).Some? && Classify(Wanted(file, n).value, t, adopt) == ToAdd
    requires updates <==> Wanted(file, n).Some? && Classify(Wanted(file, n).value, t, adopt) == ToUpdate
    requires prunes <==> n in t && t[n].source == CONFIG && !HasName(file, n)
    ensures adds || updates || (prune && prunes) <==> RowOf(t, n) != Goal(file, RowOf(t, n), adopt, prune, n)
  {
  }

  /** A name is selected exactly when the file's role of that name is so classified. */
  lemma {:induction false} SelectedNames(file: seq<Role>, t: Table, adopt: bool, c: Class, n: string)
    requires UniqueNames(file)
    ensures HasName(Select(file, t, adopt, c), n)
            <==> Wanted(file, n).Some? && Classify(Wanted(file, n).value, t, adopt) == c
  {
    var s := Select(file, t, adopt, c);
    SelectMembers(file, t, adopt, c);
    if HasName(s, n) {
      var i :| 0 <= i < |s| && s[i].name == n;
      assert s[i] in s;
      WantedUnique(file, s[i]);
    } else if Wanted(file, n).Some? && Classify(Wanted(file, n).value, t, adopt) == c {
      NamedInFile(s, Wanted(file, n).value);
    }
  }

  // -------------------------------------------------------------------------------------
  // The theorems
  // -------------------------------------------------------------------------------------

  /** A row at its goal stays there: the goal of the goal is itself. */
  lemma GoalIsFixed(file: seq<Role>, have: Option<Record>, adopt: bool, prune: bool, n: string)
    ensures
      var goal := Goal(file, have, adopt, prune, n);
      Goal(file, goal, adopt, prune, n) == goal
  {
  }

  ghost predicate AtGoal(t': Table, file: seq<Role>, t: Table, adopt: bool, prune: bool) {
    forall n :: RowOf(t', n) == Goal(file, RowOf(t, n), adopt, prune, n)
  }

  lemma SameRows(a: Table, b: Table)
    requires forall n :: RowOf(a, n) == RowOf(b, n)
    ensures a == b
  {
    forall n ensures n in a <==> n in b {
      assert RowOf(a, n) == RowOf(b, n);
    }
    forall n | n in a ensures a[n] == b[n] {
      assert RowOf(a, n) == RowOf(b, n);
    }
  }

  lemma GoalKeyed(t': Table, file: seq<Role>, t: Table, adopt: bool, prune: bool)
    requires !HasName(file, "") && KeyedByName(t) && Between(t', file, t, adopt, prune)
    ensures KeyedByName(t')
  {
    forall n | n in t' ensures t'[n].role.name == n && n != "" {
      assert RowOf(t', n) == RowOf(t, n) || RowOf(t', n) == Goal(file, RowOf(t, n), adopt, prune, n);
    }
  }

  /** Applying the diff never fails and takes every row to its goal. */
  lemma {:induction false} ReachesGoal(file: seq<Role>, t: Table, db: seq<Record>, adopt: bool, prune: bool)
    requires UniqueNames(file) && !HasName(file, "") && KeyedByName(t) && Lists(db, t)
    ensures
      var (t', ok) := ApplyAll(t, Ops(Diff(file, db, adopt), prune));
      ok && KeyedByName(t') && AtGoal(t', file, t, adopt, prune)
  {
    DiffIsRight(file, t, db, adopt, prune);
    var ops := Ops(Diff(file, db, adopt), prune);
    WritesReachGoal(file, t, adopt, prune, ops);
    GoalKeyed(ApplyAll(t, ops).0, file, t, adopt, prune);
  }

  /** Convergence: applying the diff of a file with unique, non-empty names never fails, leaves
      every portal row it does not adopt exactly as it was, and leaves nothing for the next diff to
      write, whatever order the backend then lists the rows in. */
  lemma {:induction false} Converges(file: seq<Role>, t: Table, db: seq<Record>, adopt: bool, prune: bool, next: seq<Record>)
    requires UniqueNames(file) && !HasName(file, "") && KeyedByName(t) && Lists(db, t)
    requires Lists(next, ApplyAll(t, Ops(Diff(file, db, adopt), prune)).0)
    ensures
      var (t', ok) := ApplyAll(t, Ops(Diff(file, db, adopt), prune));
      && ok && AtGoal(t', file, t, adopt, prune)
      && (forall n :: n in t && t[n].source == PORTAL && !(adopt && HasName(file, n)) ==> n in t' && t'[n] == t[n])
      && Ops(Diff(file, next, adopt), prune) == []
      && (prune ==> Diff(file, next, adopt).Empty())
  {
    ReachesGoal(file, t, db, adopt, prune);
    var t' := ApplyAll(t, Ops(Diff(file, db, adopt), prune)).0;
    forall n | n in t && t[n].source == PORTAL && !(adopt && HasName(file, n)) ensures n in t' && t'[n] == t[n] {
      assert RowOf(t', n) == Goal(file, RowOf(t, n), adopt, prune, n) == RowOf(t, n);
    }
    EnoughWrites(file, t', next, adopt, prune);
    var ops := Ops(Diff(file, next, adopt), prune);
    if ops != [] {
      var n := OpName(ops[0]);
      assert Touched(ops, n);
      assert RowOf(t', n) == Goal(file, RowOf(t, n), adopt, prune, n);
      GoalIsFixed(file, RowOf(t, n), adopt, prune, n);
      assert false;
    }
  }

  /** Recovery: stopping after any number of the writes and running reconcile again reaches the
      very table that the uninterrupted run reaches. */
  lemma {:induction false} Resumes(file: seq<Role>, t: Table, db: seq<Record>, adopt: bool, prune: bool, k: nat, again: seq<Record>)
    requires UniqueNames(file) && !HasName(file, "") && KeyedByName(t) && Lists(db, t)
    requires k <= |Ops(Diff(file, db, adopt), prune)|
    requires Lists(again, ApplyAll(t, Ops(Diff(file, db, adopt), prune)[..k]).0)
    ensures
      var ops := Ops(Diff(file, db, adopt), prune);
      var cut := ApplyAll(t, ops[..k]).0;
      ApplyAll(cut, Ops(Diff(file, again, adopt), prune)) == ApplyAll(t, ops)
  {
    var ops := Ops(Diff(file, db, adopt), prune);
    var cut := ApplyAll(t, ops[..k]).0;
    CutIsBetween(file, t, db, adopt, prune, k);
    GoalKeyed(cut, file, t, adopt, prune);
    ReachesGoal(file, t, db, adopt, prune);
    ReachesGoal(file, cut, again, adopt, prune);
    GoalsMeet(file, t, cut, ApplyAll(t, ops).0, ApplyAll(cut, Ops(Diff(file, again, adopt), prune)).0, adopt, prune);
  }

  /** Each row is as it was, or at its goal. */
  ghost predicate Between(cut: Table, file: seq<Role>, t: Table, adopt: bool, prune: bool) {
    forall n :: RowOf(cut, n) == RowOf(t, n) || RowOf(cut, n) == Goal(file, RowOf(t, n), adopt, prune, n)
  }

  lemma {:induction false} CutIsBetween(file: seq<Role>, t: Table, db: seq<Record>, adopt: bool, prune: bool, k: nat)
    requires UniqueNames(file) && !HasName(file, "") && KeyedByName(t) && Lists(db, t)
    requires k <= |Ops(Diff(file, db, adopt), prune)|
    ensures Between(ApplyAll(t, Ops(Diff(file, db, adopt), prune)[..k]).0, file, t, adopt, prune)
  {
    var ops := Ops(Diff(file, db, adopt), prune);
    DiffIsRight(file, t, db, adopt, prune);
    WritesReachGoal(file, t, adopt, prune, ops[..k]);
  }

  /** From a table in between, the goals are the same. */
  lemma GoalsMeet(file: seq<Role>, t: Table, cut: Table, done: Table, redone: Table, adopt: bool, prune: bool)
    requires Between(cut, file, t, adopt, prune)
    requires AtGoal(done, file, t, adopt, prune) && AtGoal(redone, file, cut, adopt, prune)
    ensures redone == done
  {
    forall n ensures RowOf(redone, n) == RowOf(done, n) {
      GoalIsFixed(file, RowOf(t, n), adopt, prune, n);
    }
    SameRows(redone, done);
  }

  // -------------------------------------------------------------------------------------
  // In the terms of the file and the table
  // -------------------------------------------------------------------------------------

  /** The name is the portal's, and stays so. */
  predicate PortalKeeps(t: Table, adopt: bool, n: string) {
    n in t && t[n].source == "portal" && !adopt
  }

  lemma {:induction false} NamesMembers(rs: seq<Role>)
    ensures forall n :: n in Names(rs) <==> HasName(rs, n)
  {
    if rs != [] {
      var k := |rs| - 1;
      NamesMembers(rs[..k]);
      HasNameSnoc(rs, k);
      assert rs[..k + 1] == rs;
    }
  }

  /** Which roles the diff adds and updates, which names it reports as conflicts and which it prunes,
      the last two in order. */
  lemma {:induction false} PlanExactly(file: seq<Role>, t: Table, db: seq<Record>, adopt: bool)
    requires KeyedByName(t) && Lists(db, t)
    ensures
      var p := Diff(file, db, adopt);
      && (forall r :: r in p.add <==> r in file && r.name !in t)
      && (forall r :: r in p.update <==> r in file && r.name in t && (if t[r.name].source == "portal" then adopt else !SameRole(t[r.name].role, r)))
      && (forall n :: n in p.conflicts <==> HasName(file, n) && PortalKeeps(t, adopt, n))
      && (forall n :: n in p.prune <==> n in t && t[n].source == "config" && !HasName(file, n))
      && Sorted(Less, p.conflicts) && Sorted(Less, p.prune)
  {
    ByNameIsTable(db, t);
    forall r | r in file && r.name in t ensures RoleEqual(t[r.name].role, r) <==> SameRole(t[r.name].role, r) {
      RoleEqualExactly(t[r.name].role, r);
    }
    SelectMembers(file, t, adopt, ToAdd);
    SelectMembers(file, t, adopt, ToUpdate);
    PrunedNames(file, t, db);
    SortStringsSound(Orphans(db, file));
    ConflictNames(file, t, adopt);
    SortStringsSound(Names(Select(file, t, adopt, InConflict)));
  }

  lemma {:induction false} ConflictNames(file: seq<Role>, t: Table, adopt: bool)
    ensures forall n :: n in Names(Select(file, t, adopt, InConflict)) <==> HasName(file, n) && PortalKeeps(t, adopt, n)
  {
    var s := Select(file, t, adopt, InConflict);
    NamesMembers(s);
    SelectMembers(file, t, adopt, InConflict);
    forall n ensures HasName(s, n) <==> HasName(file, n) && PortalKeeps(t, adopt, n) {
      if HasName(s, n) {
        var i :| 0 <= i < |s| && s[i].name == n;
        assert s[i] in s;
        NamedInFile(file, s[i]);
      }
      if HasName(file, n) && PortalKeeps(t, adopt, n) {
        var i :| 0 <= i < |file| && file[i].name == n;
        assert file[i] in file;
        NamedInFile(s, file[i]);
      }
    }
  }

  /** The diff takes the file's roles in its order. */
  lemma {:induction false} SelectConcat(a: seq<Role>, b: seq<Role>, t: Table, adopt: bool, c: Class)
    ensures Select(a + b, t, adopt, c) == Select(a, t, adopt, c) + Select(b, t, adopt, c)
    decreases |b|
  {
    if b == [] {
      assert a + b == a;
    } else {
      SelectConcat(a, b[..|b| - 1], t, adopt, c);
      assert (a + b)[..|a + b| - 1] == a + b[..|b| - 1] && (a + b)[|a + b| - 1] == b[|b| - 1];
    }
  }

  /** What a run is for, in the terms of file and table: afterwards every file role whose name the
      portal does not keep stands under its name, equal in every field and lists as multisets, and
      not marked the portal's; a row changed is written as the file gives it and marked config; names
      the file does not have keep their rows, except that pruning removes those marked config. */
  lemma {:induction false} RunMeans(file: seq<Role>, t: Table, db: seq<Record>, adopt: bool, prune: bool, n: string)
    requires UniqueNames(file) && !HasName(file, "") && KeyedByName(t) && Lists(db, t)
    ensures
      var t' := ApplyAll(t, Ops(Diff(file, db, adopt), prune)).0;
      && (forall r :: r in file && r.name == n && !PortalKeeps(t, adopt, n) ==>
            && n in t' && SameRole(t'[n].role, r) && t'[n].source != "portal"
            && (t'[n] == Record(r, "config") || (n in t && t'[n] == t[n])))
      && (PortalKeeps(t, adopt, n) ==> n in t' && t'[n] == t[n])
      && (!HasName(file, n) && n in t ==>
            if prune && t[n].source == "config" then n !in t' else n in t' && t'[n] == t[n])
      && (!HasName(file, n) && n !in t ==> n !in t')
  {
    ReachesGoal(file, t, db, adopt, prune);
    var t' := ApplyAll(t, Ops(Diff(file, db, adopt), prune)).0;
    assert RowOf(t', n) == Goal(file, RowOf(t, n), adopt, prune, n);
    forall r | r in file && r.name == n && !PortalKeeps(t, adopt, n)
      ensures n in t' && SameRole(t'[n].role, r) && t'[n].source != "portal"
      ensures t'[n] == Record(r, "config") || (n in t && t'[n] == t[n])
    {
      NamedInFile(file, r);
      WantedUnique(file, r);
      RoleEqualExactly(r, r);
      if n in t {
        RoleEqualExactly(t[n].role, r);
      }
    }
  }

  // -------------------------------------------------------------------------------------
  // Files that break the naming rule
  // -------------------------------------------------------------------------------------

  /** Additions all succeed exactly when their names are new, non-empty and different. */
  lemma {:induction false} AddsSucceed(t: Table, rs: seq<Role>)
    requires forall r :: r in rs ==> r.name !in t
    ensures ApplyAll(t, AddOps(rs)).1 <==> UniqueNames(rs) && !HasName(rs, "")
    ensures ApplyAll(t, AddOps(rs)).1 ==> forall n :: n in ApplyAll(t, AddOps(rs)).0 <==> n in t || HasName(rs, n)
  {
    if rs != [] {
      var k := |rs| - 1;
      AddsSucceed(t, rs[..k]);
      HasNameSnoc(rs, k);
      assert rs[..k + 1] == rs && AddOps(rs)[..k] == AddOps(rs[..k]);
      assert rs[k] in rs;
      UniqueNamesSnoc(rs);
    }
  }

  lemma UniqueNamesSnoc(rs: seq<Role>)
    requires rs != []
    ensures UniqueNames(rs) <==> UniqueNames(rs[..|rs| - 1]) && !HasName(rs[..|rs| - 1], rs[|rs| - 1].name)
  {
    var front, last := rs[..|rs| - 1], rs[|rs| - 1];
    assert forall i :: 0 <= i < |front| ==> front[i] == rs[i];
    if UniqueNames(rs) {
      forall i | 0 <= i < |front| ensures front[i].name != last.name {
        assert rs[i].name != rs[|rs| - 1].name;
      }
    } else if UniqueNames(front) {
      var i, j :| 0 <= i < j < |rs| && rs[i].name == rs[j].name;
      assert front[i].name == last.name;
    }
  }

  lemma {:induction false} UpdatesSucceed(t: Table, rs: seq<Role>)
    requires forall r :: r in rs ==> r.name in t && r.name != ""
    ensures ApplyAll(t, UpdateOps(rs)).1 && ApplyAll(t, UpdateOps(rs)).0.Keys == t.Keys
  {
    if rs != [] {
      UpdatesSucceed(t, rs[..|rs| - 1]);
      assert UpdateOps(rs)[..|rs| - 1] == UpdateOps(rs[..|rs| - 1]);
      assert rs[|rs| - 1] in rs;
    }
  }

  lemma {:induction false} PrunesSucceed(t: Table, ns: seq<string>)
    requires (forall n :: n in ns ==> n in t) && DistinctNames(PruneOps(ns))
    ensures ApplyAll(t, PruneOps(ns)).1
    ensures forall n :: n in ApplyAll(t, PruneOps(ns)).0 <==> n in t && n !in ns
  {
    if ns != [] {
      var front, last := ns[..|ns| - 1], ns[|ns| - 1];
      assert PruneOps(ns)[..|ns| - 1] == PruneOps(front) && ns == front + [last];
      assert forall i :: 0 <= i < |front| ==> OpName(PruneOps(ns)[i]) == front[i];
      assert OpName(PruneOps(ns)[|ns| - 1]) == last;
      PrunesSucceed(t, front);
      assert last in ns && last !in front;
    }
  }

  /** For any file at all, applying its diff succeeds if and only if the file roles that the table
      lacks have non-empty, pairwise different names. */
  lemma {:induction false} AppliesExactly(file: seq<Role>, t: Table, db: seq<Record>, adopt: bool, prune: bool)
    requires KeyedByName(t) && Lists(db, t)
    ensures
      var missing := Diff(file, db, adopt).add;
      && (forall r :: r in missing <==> r in file && r.name !in t)
      && (ApplyAll(t, Ops(Diff(file, db, adopt), prune)).1 <==> UniqueNames(missing) && !HasName(missing, ""))
  {
    var p := Diff(file, db, adopt);
    ByNameIsTable(db, t);
    SelectMembers(file, t, adopt, ToAdd);
    SelectMembers(file, t, adopt, ToUpdate);
    var adds, updates, prunes := AddOps(p.add), UpdateOps(p.update), if prune then PruneOps(p.prune) else [];
    ApplyConcat(t, adds, updates);
    ApplyConcat(t, adds + updates, prunes);
    AddsSucceed(t, p.add);
    if ApplyAll(t, adds).1 {
      var t1 := ApplyAll(t, adds).0;
      UpdatesSucceed(t1, p.update);
      PrunedNames(file, t, db);
      DistinctPrunes(file, db);
      PrunesSucceed(ApplyAll(t1, updates).0, p.prune);
    }
  }
}
