/** The active-certificate table: one rotation row per identity. Serials are decimal strings,
    "" meaning none. The SQL backends agree on what each statement does to the table. */
module ActiveCerts {
  import opened Wrappers
  import opened X509Engine

  datatype ActiveCert = ActiveCert(
    currentSerial: string,
    currentNotAfter: int,
    previousSerial: string,
    previousNotAfter: Option<int>,
    lockedAt: Option<int>,
    lockedSerial: string)
  {
    predicate Locked() {
      lockedAt.Some?
    }

    /** The serials a renewal may rotate from. Empty never matches. */
    predicate Accepts(serial: string) {
      serial != "" && (serial == currentSerial || serial == previousSerial)
    }
  }

  type Table = map<string, ActiveCert>

  function RowOf(t: Table, identity: string): Option<ActiveCert> {
    if identity in t then Some(t[identity]) else None
  }

  function WithRow(t: Table, identity: string, row: Option<ActiveCert>): Table {
    if row.Some? then t[identity := row.value] else t - {identity}
  }

  /** The row an issuance leaves: new rotation columns, the lock columns as they were. */
  function Recorded(row: Option<ActiveCert>, cert: Certificate, previousSerial: string, previousNotAfter: Option<int>)
    : ActiveCert
  {
    ActiveCert(cert.serial, cert.notAfter, previousSerial, previousNotAfter,
               if row.Some? then row.value.lockedAt else None,
               if row.Some? then row.value.lockedSerial else "")
  }

  function LockStamped(row: Option<ActiveCert>, now: int, offender: string): Option<ActiveCert> {
    if row.None? then None else Some(row.value.(lockedAt := Some(now), lockedSerial := offender))
  }

  /** The row after an adoption ack: the one-step grace is dropped only for the current serial
      of an unlocked row. */
  function GraceDropped(row: Option<ActiveCert>, serial: string): Option<ActiveCert> {
    if row.Some? && row.value.currentSerial == serial && !row.value.Locked()
    then Some(row.value.(previousSerial := "", previousNotAfter := None))
    else row
  }

  /** `fails` is a database error on that call; a failed statement changes nothing. */
  class ActiveCertStore {
    var rows: Table

    constructor ()
      ensures rows == map[]
    {
      rows := map[];
    }

    method Get(identity: string, fails: bool) returns (r: Result<Option<ActiveCert>, ()>)
      ensures r == if fails then Err(()) else Ok(RowOf(rows, identity))
    {
      if fails {
        return Err(());
      }
      r := Ok(if identity in rows then Some(rows[identity]) else None);
    }

    method Upsert(identity: string, cert: Certificate, previousSerial: string, previousNotAfter: Option<int>, fails: bool)
      returns (ok: bool)
      modifies this
      ensures ok == !fails
      ensures rows == if fails then old(rows)
                      else old(rows)[identity := Recorded(RowOf(old(rows), identity), cert, previousSerial, previousNotAfter)]
      ensures !fails ==>
        && identity in rows
        && rows[identity].currentSerial == cert.serial && rows[identity].currentNotAfter == cert.notAfter
        && rows[identity].previousSerial == previousSerial && rows[identity].previousNotAfter == previousNotAfter
        && rows[identity].lockedAt == (if identity in old(rows) then old(rows)[identity].lockedAt else None)
        && rows[identity].lockedSerial == (if identity in old(rows) then old(rows)[identity].lockedSerial else "")
    {
      if fails {
        return false;
      }
      if identity in rows {
        var row := rows[identity];
        row := row.(currentSerial := cert.serial, currentNotAfter := cert.notAfter);
        row := row.(previousSerial := previousSerial, previousNotAfter := previousNotAfter);
        rows := rows[identity := row];
      } else {
        rows := rows[identity := ActiveCert(cert.serial, cert.notAfter, previousSerial, previousNotAfter, None, "")];
      }
      ok := true;
    }

    /** Clearing the row is how an operator lifts a lock. */
    method Delete(identity: string, fails: bool) returns (ok: bool)
      modifies this
      ensures ok == !fails
      ensures rows == if fails then old(rows) else WithRow(old(rows), identity, None)
      ensures forall k :: k in old(rows) && k != identity ==> k in rows && rows[k] == old(rows)[k]
      ensures ok ==> identity !in rows
    {
      if fails {
        return false;
      }
      rows := map k | k in rows && k != identity :: rows[k];
      ok := true;
    }

    method Lock(identity: string, offender: string, now: int, fails: bool) returns (ok: bool)
      modifies this
      ensures ok == !fails
      ensures rows == if fails then old(rows)
                      else WithRow(old(rows), identity, LockStamped(RowOf(old(rows), identity), now, offender))
      ensures rows.Keys == old(rows).Keys
      ensures !fails && identity in old(rows) ==>
        rows[identity] == ActiveCert(old(rows)[identity].currentSerial, old(rows)[identity].currentNotAfter,
                                     old(rows)[identity].previousSerial, old(rows)[identity].previousNotAfter, Some(now), offender)
    {
      if fails {
        return false;
      }
      if identity in rows {
        rows := rows[identity := rows[identity].(lockedAt := Some(now), lockedSerial := offender)];
      }
      ok := true;
      assert identity !in rows ==> rows - {identity} == rows;
    }

    method AdoptCurrent(identity: string, serial: string, fails: bool) returns (r: Result<bool, ()>)
      modifies this
      ensures r.Err? <==> fails
      ensures rows == if fails then old(rows) else WithRow(old(rows), identity, GraceDropped(RowOf(old(rows), identity), serial))
      ensures !fails ==> (r.value <==> identity in old(rows) && old(rows)[identity].currentSerial == serial && old(rows)[identity].lockedAt == None)
      ensures r.Ok? && r.value ==>
        rows == old(rows)[identity := ActiveCert(serial, old(rows)[identity].currentNotAfter, "", None, None, old(rows)[identity].lockedSerial)]
    {
      if fails {
        return Err(());
      }
      var adopted := identity in rows && rows[identity].currentSerial == serial && rows[identity].lockedAt.None?;
      if adopted {
        rows := rows[identity := rows[identity].(previousSerial := "", previousNotAfter := None)];
      }
      r := Ok(adopted);
      assert identity in rows ==> rows[identity := rows[identity]] == rows;
      assert identity !in rows ==> rows - {identity} == rows;
    }
  }
}
