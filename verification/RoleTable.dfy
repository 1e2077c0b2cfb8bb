/** The persistent role table that reconcile writes to: rows keyed by role name, each with the
    marker of who owns it. Every statement either takes effect whole or leaves the table alone. */
module RoleTable {
  import opened Wrappers
  import opened Roles

  const CONFIG := "config"
  const PORTAL := "portal"

  datatype Record = Record(role: Role, source: string)

  type Table = map<string, Record>

  datatype TableError = NameRequired | Exists | NotFound | DatabaseFailed

  /** A row sits under its own, non-empty name: the primary key. */
  predicate KeyedByName(t: Table) {
    forall n :: n in t ==> t[n].role.name == n && n != ""
  }

  predicate UniqueRecords(db: seq<Record>) {
    forall i, j :: 0 <= i < j < |db| ==> db[i].role.name != db[j].role.name
  }

  /** `AllWithSource` lists every row once, in whatever order the backend collates names. */
  ghost predicate Lists(db: seq<Record>, t: Table) {
    && UniqueRecords(db)
    && (forall i :: 0 <= i < |db| ==> db[i].role.name in t && t[db[i].role.name] == db[i])
    && (forall n :: n in t ==> t[n] in db)
  }

  function NormalizeSource(source: string): string {
    if source == "" then CONFIG else source
  }

  function Added(t: Table, role: Role, source: string): Result<Table, TableError> {
    if role.name == "" then Err(NameRequired)
    else if role.name in t then Err(Exists)
    else Ok(t[role.name := Record(role, NormalizeSource(source))])
  }

  function Replaced(t: Table, oldName: string, role: Role, source: string): Result<Table, TableError> {
    if role.name == "" then Err(NameRequired)
    else if oldName !in t then Err(NotFound)
    else if role.name != oldName && role.name in t then Err(Exists)
    else Ok((t - {oldName})[role.name := Record(role, NormalizeSource(source))])
  }

  function Deleted(t: Table, name: string): Result<Table, TableError> {
    if name in t then Ok(t - {name}) else Err(NotFound)
  }

  /** An insert succeeds exactly for a new, non-empty name, and adds that row alone, marked with its
      source or, when none is given, config. */
  lemma AddedExactly(t: Table, role: Role, source: string)
    ensures
      var after := Added(t, role, source);
      && (after.Ok? <==> role.name != "" && role.name !in t)
      && (after.Ok? ==> after.value == t[role.name := Record(role, if source == "" then "config" else source)])
      && (after.Err? ==> after.error == if role.name == "" then NameRequired else Exists)
  {
  }

  /** A replacement succeeds exactly for an existing row and a non-empty name that is its own or free;
      afterwards the new row stands under the new name, the old name is gone if it differs, and every
      other row is as it was. */
  lemma ReplacedExactly(t: Table, oldName: string, role: Role, source: string)
    ensures
      var after := Replaced(t, oldName, role, source);
      && (after.Ok? <==> role.name != "" && oldName in t && (role.name == oldName || role.name !in t))
      && (after.Ok? ==>
            && role.name in after.value && after.value[role.name] == Record(role, if source == "" then "config" else source)
            && (oldName != role.name ==> oldName !in after.value)
            && (forall n :: n != oldName && n != role.name ==> (n in after.value <==> n in t))
            && (forall n :: n != oldName && n != role.name && n in t ==> after.value[n] == t[n]))
      && (after.Err? ==> after.error == if role.name == "" then NameRequired else if oldName !in t then NotFound else Exists)
  {
  }

  /** `fails` is a database error in the statement or transaction, which then changes nothing. */
  class RoleStore {
    var rows: Table

    method Add(role: Role, source: string, fails: bool) returns (r: Result<(), TableError>)
      modifies this
      ensures
        var after := Added(old(rows), role, source);
        if after.Ok? && !fails then r.Ok? && rows == after.value
        else r.Err? && rows == old(rows) && (!fails ==> r.error == after.error)
      ensures KeyedByName(old(rows)) ==> KeyedByName(rows)
    {
      if role.name == "" {
        return Err(NameRequired);
      }
      if fails {
        return Err(DatabaseFailed);
      }
      if role.name in rows {
        return Err(Exists);
      }
      rows := rows[role.name := Record(role, NormalizeSource(source))];
      r := Ok(());
    }

    /** Delete and insert in one transaction; a rename may not land on another row. */
    method Replace(oldName: string, role: Role, source: string, fails: bool) returns (r: Result<(), TableError>)
      modifies this
      ensures
        var after := Replaced(old(rows), oldName, role, source);
        if after.Ok? && !fails then r.Ok? && rows == after.value
        else r.Err? && rows == old(rows) && (!fails ==> r.error == after.error)
      ensures KeyedByName(old(rows)) ==> KeyedByName(rows)
    {
      if role.name == "" {
        return Err(NameRequired);
      }
      if fails {
        return Err(DatabaseFailed);
      }
      if oldName !in rows {
        return Err(NotFound);
      }
      if role.name != oldName && role.name in rows {
        return Err(Exists);
      }
      rows := rows - {oldName};
      rows := rows[role.name := Record(role, NormalizeSource(source))];
      r := Ok(());
    }

    method Delete(name: string, fails: bool) returns (r: Result<(), TableError>)
      modifies this
      ensures
        var after := Deleted(old(rows), name);
        if after.Ok? && !fails then r.Ok? && rows == after.value
        else r.Err? && rows == old(rows) && (!fails ==> r.error == after.error)
      ensures KeyedByName(old(rows)) ==> KeyedByName(rows)
    {
      if fails {
        return Err(DatabaseFailed);
      }
      if name !in rows {
        return Err(NotFound);
      }
      rows := rows - {name};
      r := Ok(());
    }
  }
}
