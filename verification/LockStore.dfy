/** The cached store of lock files: one file a component, copies in and out. */
module LockStore {
  import opened Wrappers

  type Name = string

  const CURRENT_VERSION := 1

  datatype Lock = Lock(version: int, importCommit: string, upstreamCommit: string, manualBump: int,
                       inputFingerprint: string, resolutionInputHash: string)

  const NEW_LOCK := Lock(CURRENT_VERSION, "", "", 0, "", "")

  /** What a lock file holds, to its parser. */
  datatype File = Corrupt | Holds(lock: Lock)

  datatype LockError = InvalidName | DiskFailed | ParseFailed | UnsupportedVersion(version: int) | NoLock

  function Parse(f: File): Result<Lock, LockError> {
    if f.Corrupt? then Failure(ParseFailed)
    else if f.lock.version != CURRENT_VERSION then Failure(UnsupportedVersion(f.lock.version))
    else Success(f.lock)
  }

  /** What loading a component's file gives, when the disk works. */
  function Loaded(files: map<Name, File>, name: Name): Result<Lock, LockError> {
    if name in files then Parse(files[name]) else Failure(DiskFailed)
  }

  /** Lock files, and the names for which the disk fails at the moment. */
  class Disk {
    var files: map<Name, File>
    var failing: set<Name>

    /** A file loads if it holds a lock of the current version. */
    method Load(name: Name) returns (r: Result<Lock, LockError>)
      ensures r == if name in failing then Failure(DiskFailed) else Loaded(files, name)
      ensures r.Success? <==> name !in failing && name in files && files[name].Holds? && files[name].lock.version == 1
      ensures r.Success? ==> r.value == files[name].lock
      ensures r.Failure? ==>
                r.error == if name in failing || name !in files then DiskFailed
                           else if files[name].Corrupt? then ParseFailed
                           else UnsupportedVersion(files[name].lock.version)
    {
      if name in failing || name !in files {
        return Failure(DiskFailed);
      }
      return Parse(files[name]);
    }

    method Write(name: Name, lock: Lock) returns (ok: bool)
      modifies this`files
      ensures ok == (name !in failing)
      ensures files == if ok then old(files)[name := Holds(lock)] else old(files)
    {
      ok := name !in failing;
      if ok {
        files := files[name := Holds(lock)];
      }
    }

    method Exists(name: Name) returns (r: Result<bool, LockError>)
      ensures r == if name in failing then Failure(DiskFailed) else Success(name in files)
    {
      return if name in failing then Failure(DiskFailed) else Success(name in files);
    }

    method Remove(name: Name) returns (ok: bool)
      modifies this`files
      ensures ok == (name !in failing && name in old(files))
      ensures files == if ok then old(files) - {name} else old(files)
    {
      ok := name !in failing && name in files;
      if ok {
        files := files - {name};
      }
    }
  }

  /** A lock that callers may change. */
  class ComponentLock {
    var fields: Lock

    constructor (fields: Lock)
      ensures this.fields == fields
    {
      this.fields := fields;
    }
  }

  class Store {
    const disk: Disk
    const validName: Name -> bool
    var cache: map<Name, ComponentLock>

    constructor (disk: Disk, validName: Name -> bool)
      ensures this.disk == disk && this.validName == validName && cache == map[] && Coherent()
    {
      this.disk := disk;
      this.validName := validName;
      cache := map[];
    }

    /** Every cached lock is what loading its file would give. */
    ghost predicate Coherent()
      reads this, disk, cache.Values
    {
      forall name <- cache :: Loaded(disk.files, name) == Success(cache[name].fields)
    }

    /** The same for all names but one. */
    ghost predicate CoherentBut(but: Name)
      reads this, disk, cache.Values
    {
      forall name <- cache :: name != but ==> Loaded(disk.files, name) == Success(cache[name].fields)
    }

    /** A copy of the lock of a component, which the caller may change: the cached one, else the
        one its file holds, which is cached. */
    method Get(name: Name) returns (r: Result<ComponentLock, LockError>)
      modifies this`cache
      ensures r.Success? <==>
                name in old(cache) || (validName(name) && name !in disk.failing && Loaded(disk.files, name).Success?)
      ensures r.Success? ==>
                fresh(r.value) && r.value !in cache.Values && name in cache && cache[name].fields == r.value.fields
      ensures if r.Success? && name !in old(cache) then
                && Loaded(disk.files, name) == Success(r.value.fields)
                && fresh(cache[name]) && cache == old(cache)[name := cache[name]]
              else cache == old(cache)
      ensures r.Success? && name in old(cache) ==> r.value.fields == old(cache)[name].fields
      ensures r.Failure? ==>
                r.error == if !validName(name) then InvalidName
                           else if name in disk.failing then DiskFailed else Loaded(disk.files, name).error
      ensures old(Coherent()) ==> Coherent() && (r.Success? ==> Loaded(disk.files, name) == Success(r.value.fields))
    {
      if name in cache {
        var cp := new ComponentLock(cache[name].fields);
        return Success(cp);
      }
      if !validName(name) {
        return Failure(InvalidName);
      }
      var loaded := disk.Load(name);
      if loaded.Failure? {
        return Failure(loaded.error);
      }
      var lock := new ComponentLock(loaded.value);
      cache := cache[name := lock];
      var cp := new ComponentLock(lock.fields);
      return Success(cp);
    }

    /** Whether a component has a file; a cached lock is enough of an answer. */
    method Exists(name: Name) returns (r: Result<bool, LockError>)
      ensures name in cache ==> r == Success(true)
      ensures r.Failure? <==> name !in cache && (!validName(name) || name in disk.failing)
      ensures r.Success? && name !in cache ==> r.value == (name in disk.files)
      ensures r.Success? && Coherent() ==> r.value == (name in disk.files)
      ensures r.Failure? ==> r.error == if !validName(name) then InvalidName else DiskFailed
    {
      if name in cache {
        return Success(true);
      }
      if !validName(name) {
        return Failure(InvalidName);
      }
      r := disk.Exists(name);
    }

    /** The lock of a component, or an empty one if it has no file; a file that does not load
        is an error. */
    method GetOrNew(name: Name) returns (r: Result<ComponentLock, LockError>)
      modifies this`cache
      ensures r.Success? ==> fresh(r.value) && r.value !in cache.Values
      ensures r.Success? ==>
                if name in old(cache) then r.value.fields == old(cache)[name].fields
                else if name in disk.files then Loaded(disk.files, name) == Success(r.value.fields)
                else r.value.fields == Lock(1, "", "", 0, "", "")
      ensures old(Coherent()) ==>
                && Coherent()
                && (r.Success? && name in disk.files ==> Loaded(disk.files, name) == Success(r.value.fields))
      ensures r.Success? <==>
                name in old(cache)
                || (validName(name) && name !in disk.failing
                   && (name in disk.files ==> Loaded(disk.files, name).Success?))
    {
      r := Get(name);
      if r.Failure? {
        var found := Exists(name);
        if found.Failure? {
          return Failure(found.error);
        }
        if found.value {
          return r;
        }
        var lock := new ComponentLock(NEW_LOCK);
        return Success(lock);
      }
    }

    /** Writes a lock and caches a copy of it, so that the caller may go on changing its own. */
    method Save(name: Name, lock: ComponentLock?) returns (r: Result<(), LockError>)
      requires lock !in cache.Values
      modifies this`cache, disk`files
      ensures r.Success? <==> lock != null && validName(name) && name !in disk.failing
      ensures r.Failure? ==> cache == old(cache) && disk.files == old(disk.files)
      ensures r.Success? ==>
                && disk.files == old(disk.files)[name := Holds(lock.fields)]
                && name in cache && fresh(cache[name]) && cache[name].fields == lock.fields
                && cache == old(cache)[name := cache[name]]
      ensures lock !in cache.Values
      ensures r.Success? ==> (Coherent() <==> old(CoherentBut(name)) && lock.fields.version == CURRENT_VERSION)
    {
      if lock == null {
        return Failure(NoLock);
      }
      if !validName(name) {
        return Failure(InvalidName);
      }
      var written := disk.Write(name, lock.fields);
      if !written {
        return Failure(DiskFailed);
      }
      var cp := new ComponentLock(lock.fields);
      cache := cache[name := cp];
      assert forall n <- cache :: n != name ==>
        n in old(cache) && cache[n] == old(cache)[n] && Loaded(disk.files, n) == old(Loaded(disk.files, n));
      assert forall n <- old(cache) :: n in cache;
      return Success(());
    }

    method Remove(name: Name) returns (r: Result<(), LockError>)
      modifies this`cache, disk`files
      ensures r.Success? <==> validName(name) && name !in disk.failing && name in old(disk.files)
      ensures if r.Success? then cache == old(cache) - {name} && disk.files == old(disk.files) - {name}
              else cache == old(cache) && disk.files == old(disk.files)
      ensures r.Success? ==> (Coherent() <==> old(CoherentBut(name)))
      ensures old(Coherent()) ==> Coherent()
    {
      if !validName(name) {
        return Failure(InvalidName);
      }
      var removed := disk.Remove(name);
      if !removed {
        return Failure(DiskFailed);
      }
      cache := cache - {name};
      assert forall n <- cache :: n != name && n in old(cache) && Loaded(disk.files, n) == old(Loaded(disk.files, n));
      assert forall n <- old(cache) :: n != name ==> n in cache;
      return Success(());
    }

    /** Removes the files of the components that are gone, as far as the disk allows. */
    method PruneOrphans(orphans: seq<Name>) returns (pruned: nat, failed: nat)
      modifies this`cache, disk`files
      ensures (old(Coherent()) ==> Coherent()) && pruned + failed == |orphans|
      ensures var gone := Gone(orphans, validName, disk.failing, old(disk.files));
              && pruned == |gone| && disk.files == old(disk.files) - gone && cache == old(cache) - gone
    {
      hide Coherent, Gone;
      pruned, failed := 0, 0;
      ghost var files := disk.files;
      NoneGone(validName, disk.failing, files);
      for i := 0 to |orphans|
        invariant (old(Coherent()) ==> Coherent()) && pruned + failed == i
        invariant var gone := Gone(orphans[..i], validName, disk.failing, files);
                  && pruned == |gone| && disk.files == files - gone && cache == old(cache) - gone
      {
        GoneStep(orphans, i, validName, disk.failing, files);
        ghost var before := Gone(orphans[..i], validName, disk.failing, files);
        assert orphans[i] in before ==> before + {orphans[i]} == before;
        var r := Remove(orphans[i]);
        if r.Failure? {
          failed := failed + 1;
        } else {
          pruned := pruned + 1;
        }
      }
      assert orphans[..|orphans|] == orphans;
    }
  }

  /** The names whose files can be removed. */
  function Gone(orphans: seq<Name>, validName: Name -> bool, failing: set<Name>, files: map<Name, File>): set<Name> {
    set n | n in orphans && validName(n) && n !in failing && n in files
  }

  lemma NoneGone(validName: Name -> bool, failing: set<Name>, files: map<Name, File>)
    ensures Gone([], validName, failing, files) == {}
  {
  }

  lemma GoneStep(orphans: seq<Name>, i: nat, validName: Name -> bool, failing: set<Name>, files: map<Name, File>)
    requires i < |orphans|
    ensures var before, n := Gone(orphans[..i], validName, failing, files), orphans[i];
            Gone(orphans[..i + 1], validName, failing, files)
            == if validName(n) && n !in failing && n in files then before + {n} else before
  {
    assert orphans[..i + 1] == orphans[..i] + [orphans[i]];
  }

  /** A caller changes the lock it got, and the one it saved: the store still hands out what was
      saved, and agrees with the disk if it did before and the lock has the current version. */
  method ChangesStayOutside(store: Store, name: Name, saved: ComponentLock, other: Lock)
    returns (again: Result<ComponentLock, LockError>)
    requires saved !in store.cache.Values
    modifies store`cache, store.disk`files, saved
    ensures old(store.Coherent()) && old(saved.fields.version) == CURRENT_VERSION ==> store.Coherent()
    ensures store.validName(name) && name !in store.disk.failing ==>
              again.Success? && again.value.fields == old(saved.fields)
  {
    var r := store.Save(name, saved);
    saved.fields := other;
    var first := store.Get(name);
    if first.Success? {
      first.value.fields := other;
    }
    again := store.Get(name);
  }
}
