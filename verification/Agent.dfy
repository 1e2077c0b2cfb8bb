/** cert-agentd's renewer: the workload key in memory, the key and certificate files, and one
    signing round-trip that can fail or be cut short anywhere. Private keys are numbered in the
    order they are generated, so a larger number is a newer key. */
module Agent {
  import opened Wrappers
  import opened X509Engine

  /** What reading an output path finds. */
  datatype File<+T> = Absent | Garbled | Holds(content: T)

  datatype Disk = Disk(key: File<nat>, cert: File<Certificate>)

  datatype Mode = StableKey | RotateKey

  /** `privateKey` and `keyPersisted`. */
  datatype Memory = Memory(key: Option<nat>, persisted: bool)

  const FORGOTTEN := Memory(None, false)

  datatype State = State(mode: Mode, memory: Memory, disk: Disk, generated: nat)

  /** The key to certify, and whether it must be written beside the certificate. */
  datatype Picked = Picked(key: nat, bundle: bool)

  datatype KeyFault = NoKeyFault | KeyReadFails | KeyGenerationFails

  /** How the write of an issued certificate ends. */
  datatype WritePath =
    | Completes
    | StagingFails
    | KeyRenameFails
    | CertRenameFails
    | CrashBeforeRenames
    | CrashBetweenRenames
    | CrashAfterRenames

  datatype Outcome = Renewed | Failed | Crashed

  /** One attempt's surroundings. `response` is `None` when the call fails or returns nothing;
      `crashWaiting` stops the process while the call is under way. */
  datatype Attempt = Attempt(keyFault: KeyFault, response: Option<Certificate>, crashWaiting: bool, path: WritePath)

  /** `readCurrentSerial`: an absent, unreadable or expired certificate claims no serial. */
  function ReadCurrentSerial(file: File<Certificate>, now: int): string {
    if file.Holds? && now <= file.content.notAfter then file.content.serial else ""
  }

  // -------------------------------------------------------------------------------------
  // One attempt, as a function of the state
  // -------------------------------------------------------------------------------------

  /** `keyForRenewal`: the memory it leaves, the generation count, and the key it picks, if any. */
  function KeyForRenewal(a: State, fault: KeyFault): (Memory, nat, Option<Picked>) {
    if a.mode.RotateKey? then
      if fault.KeyGenerationFails? then (a.memory, a.generated, None)
      else (a.memory, a.generated + 1, Some(Picked(a.generated + 1, true)))
    else if a.memory.key.Some? then
      (a.memory, a.generated, Some(Picked(a.memory.key.value, !a.memory.persisted)))
    else if fault.KeyReadFails? || a.disk.key.Garbled? then (a.memory, a.generated, None)
    else if a.disk.key.Holds? then
      (Memory(Some(a.disk.key.content), true), a.generated, Some(Picked(a.disk.key.content, false)))
    else if fault.KeyGenerationFails? then (a.memory, a.generated, None)
    else
      (Memory(Some(a.generated + 1), false), a.generated + 1, Some(Picked(a.generated + 1, true)))
  }

  /** `WriteBundleAtomic` (key first, certificate last) or `WriteAtomic`. */
  function Written(disk: Disk, key: nat, cert: Certificate, bundle: bool, path: WritePath): (Disk, Outcome) {
    var withKey := if bundle then disk.(key := Holds(key)) else disk;
    match path
    case Completes => (withKey.(cert := Holds(cert)), Renewed)
    case StagingFails => (disk, Failed)
    case KeyRenameFails => (disk, Failed)
    case CertRenameFails => (withKey, Failed)
    case CrashBeforeRenames => (disk, Crashed)
    case CrashBetweenRenames => (withKey, Crashed)
    case CrashAfterRenames => (withKey.(cert := Holds(cert)), Crashed)
  }

  /** `SignOnce`. certd certifies the key it was sent; a crash forgets the memory. */
  function SignOnce(a: State, env: Attempt): (State, Outcome) {
    var (memory, generated, picked) := KeyForRenewal(a, env.keyFault);
    var asked := a.(memory := memory, generated := generated);
    if picked.None? then (asked, Failed)
    else if env.crashWaiting then (asked.(memory := FORGOTTEN), Crashed)
    else if env.response.None? then (asked, Failed)
    else
      var Picked(key, bundle) := picked.value;
      var (disk, out) := Written(a.disk, key, env.response.value.(publicKey := key), bundle, env.path);
      var kept :=
        if out.Crashed? then FORGOTTEN
        else if out.Renewed? && bundle && a.mode.StableKey? then memory.(persisted := true)
        else memory;
      (asked.(memory := kept, disk := disk), out)
  }

  // -------------------------------------------------------------------------------------
  // The same attempt, on the mutable renewer
  // -------------------------------------------------------------------------------------

  datatype Payload = KeyPEM(key: nat) | CertPEM(cert: Certificate)

  class FileSystem {
    var keyFile: File<nat>
    var certFile: File<Certificate>
    var temps: map<nat, Payload>
    var nextTemp: nat

    ghost predicate Valid()
      reads this
    {
      forall t :: t in temps ==> t < nextTemp
    }

    ghost function OnDisk(): Disk
      reads this
    {
      Disk(keyFile, certFile)
    }

    constructor (disk: Disk)
      ensures Valid() && OnDisk() == disk && temps == map[]
    {
      keyFile, certFile, temps, nextTemp := disk.key, disk.cert, map[], 0;
    }

    /** Writes a temp file beside the target, or leaves none behind. */
    method StageTemp(b: Payload, fails: bool) returns (tmp: Option<nat>)
      requires Valid()
      modifies this`temps, this`nextTemp
      ensures Valid()
      ensures fails ==> tmp == None && temps == old(temps)
      ensures !fails ==> tmp.Some? && tmp.value !in old(temps) && temps == old(temps)[tmp.value := b]
    {
      if fails {
        return None;
      }
      temps := temps[nextTemp := b];
      tmp := Some(nextTemp);
      nextTemp := nextTemp + 1;
    }

    method Remove(tmp: nat)
      modifies this`temps
      ensures temps == old(temps) - {tmp}
    {
      temps := temps - {tmp};
    }

    /** Moves a staged file onto its path in one step. */
    method Rename(tmp: nat)
      requires tmp in temps
      modifies this`temps, this`keyFile, this`certFile
      ensures temps == old(temps) - {tmp}
      ensures OnDisk() == match old(temps)[tmp]
                          case KeyPEM(k) => old(OnDisk()).(key := Holds(k))
                          case CertPEM(c) => old(OnDisk()).(cert := Holds(c))
    {
      match temps[tmp] {
        case KeyPEM(k) => keyFile := Holds(k);
        case CertPEM(c) => certFile := Holds(c);
      }
      temps := temps - {tmp};
    }

    /** Leaves the files as `Written` says, and no temp file unless the process died. */
    method WriteAtomic(cert: Certificate, path: WritePath) returns (out: Outcome)
      requires Valid()
      modifies this
      ensures Valid() && (OnDisk(), out) == Written(old(OnDisk()), 0, cert, false, path)
      ensures !out.Crashed? ==> temps == old(temps)
    {
      var tmp := StageTemp(CertPEM(cert), path.StagingFails?);
      if tmp.None? {
        return Failed;
      }
      if path.CrashBeforeRenames? || path.CrashBetweenRenames? {
        return Crashed;
      }
      if path.KeyRenameFails? || path.CertRenameFails? {
        Remove(tmp.value);
        assert temps == old(temps);
        return Failed;
      }
      Rename(tmp.value);
      assert temps == old(temps);
      out := if path.CrashAfterRenames? then Crashed else Renewed;
    }

    /** The same for a key and certificate together: the certificate's rename is the commit. */
    method WriteBundleAtomic(cert: Certificate, key: nat, path: WritePath, certStagingFails: bool) returns (out: Outcome)
      requires Valid()
      modifies this
      ensures Valid() && (OnDisk(), out) == Written(old(OnDisk()), key, cert, true, path)
      ensures !out.Crashed? ==> temps == old(temps)
    {
      var keyTmp := StageTemp(KeyPEM(key), path.StagingFails? && !certStagingFails);
      if keyTmp.None? {
        return Failed;
      }
      var certTmp := StageTemp(CertPEM(cert), path.StagingFails?);
      if certTmp.None? {
        Remove(keyTmp.value);
        assert temps == old(temps);
        return Failed;
      }
      if path.CrashBeforeRenames? {
        return Crashed;
      }
      if path.KeyRenameFails? {
        Remove(keyTmp.value);
        Remove(certTmp.value);
        assert temps == old(temps);
        return Failed;
      }
      Rename(keyTmp.value);
      if path.CrashBetweenRenames? {
        return Crashed;
      }
      if path.CertRenameFails? {
        Remove(certTmp.value);
        assert temps == old(temps);
        return Failed;
      }
      Rename(certTmp.value);
      assert temps == old(temps);
      out := if path.CrashAfterRenames? then Crashed else Renewed;
    }
  }

  class Renewer {
    const mode: Mode
    const fs: FileSystem
    var privateKey: Option<nat>
    var keyPersisted: bool
    var generated: nat

    ghost function Abstract(): State
      reads this, fs
    {
      State(mode, Memory(privateKey, keyPersisted), fs.OnDisk(), generated)
    }

    /** A fresh process over the files it finds. */
    constructor (mode: Mode, fs: FileSystem, generated: nat)
      ensures this.fs == fs && Abstract() == State(mode, FORGOTTEN, fs.OnDisk(), generated)
    {
      this.mode, this.fs, this.generated := mode, fs, generated;
      this.privateKey, this.keyPersisted := None, false;
    }

    method PickKey(fault: KeyFault) returns (picked: Option<Picked>)
      modifies this
      ensures
        var (memory, count, p) := KeyForRenewal(old(Abstract()), fault);
        picked == p && Abstract() == old(Abstract()).(memory := memory, generated := count)
    {
      if mode.RotateKey? {
        if fault.KeyGenerationFails? {
          return None;
        }
        generated := generated + 1;
        return Some(Picked(generated, true));
      }
      if privateKey.Some? {
        return Some(Picked(privateKey.value, !keyPersisted));
      }
      if fault.KeyReadFails? || fs.keyFile.Garbled? {
        return None;
      }
      if fs.keyFile.Holds? {
        privateKey, keyPersisted := Some(fs.keyFile.content), true;
        return Some(Picked(fs.keyFile.content, false));
      }
      if fault.KeyGenerationFails? {
        return None;
      }
      generated := generated + 1;
      privateKey, keyPersisted := Some(generated), false;
      picked := Some(Picked(generated, true));
    }

    method SignOnceOnDisk(env: Attempt, certStagingFails: bool) returns (out: Outcome)
      requires fs.Valid()
      modifies this, fs
      ensures fs.Valid()
      ensures (Abstract(), out) == SignOnce(old(Abstract()), env)
    {
      var picked := PickKey(env.keyFault);
      if picked.None? {
        return Failed;
      }
      if env.crashWaiting {
        privateKey, keyPersisted := None, false;
        return Crashed;
      }
      if env.response.None? {
        return Failed;
      }
      var Picked(key, writeBundle) := picked.value;
      var cert := env.response.value.(publicKey := key);
      if writeBundle {
        out := fs.WriteBundleAtomic(cert, key, env.path, certStagingFails);
        if out.Renewed? && mode.StableKey? {
          keyPersisted := true;
        }
      } else {
        out := fs.WriteAtomic(cert, env.path);
      }
      if out.Crashed? {
        privateKey, keyPersisted := None, false;
      }
    }
  }
}
