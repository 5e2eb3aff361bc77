/** The driver operations as they run against the two directories. Each is proved to make
    exactly the edits that DriverCache says, in that order, so that what
    DriverCacheSafety proves of every prefix holds at every moment. */
module DriverHosts {
  import opened Orders
  import opened DriverArchive
  import opened DriverCache
  import opened DriverCacheSafety
  import DriverOutcomes

  class DriverHost {
    const env: Env
    var cache: map<string, Bytes>
    var bin: map<string, Bytes>
    ghost const start: Store
    ghost var log: seq<Edit>

    ghost function View(): Store
      reads this
    {
      Store(cache, bin)
    }

    /** The directories are the result of the edits made so far. */
    ghost predicate Valid()
      reads this
    {
      View() == ApplyAll(start, log)
    }

    constructor (env: Env)
      ensures Valid() && this.env == env && View() == EMPTY_STORE && log == []
    {
      this.env := env;
      cache, bin := map[], map[];
      start, log := EMPTY_STORE, [];
    }

    method Do(e: Edit)
      requires Valid()
      modifies this
      ensures Valid() && log == old(log) + [e] && View() == Apply(old(View()), e)
    {
      match e {
        case PutCache(n, bytes) => cache := cache[n := bytes];
        case DropCache(n) => cache := cache - {n};
        case PutBin(n, bytes) => bin := bin[n := bytes];
        case DropBin(n) => bin := bin - {n};
        case RenameBin(n, to) =>
          if n in bin {
            bin := (bin - {n})[to := bin[n]];
          }
      }
      log := log + [e];
      assert log[..|log| - 1] == old(log);
    }

    /** Creating a cache file and filling it byte by byte, n bytes in all. */
    method FillCache(dest: string, data: Bytes, n: nat)
      requires Valid() && n <= |data|
      modifies this
      ensures Valid() && log == old(log) + CacheWrites(dest, Filling(data, n))
      ensures bin == old(bin)
    {
      ghost var es := CacheWrites(dest, Filling(data, n));
      var i := 0;
      while i <= n
        invariant 0 <= i <= n + 1
        invariant Valid() && log == old(log) + es[..i] && bin == old(bin)
      {
        Do(PutCache(dest, data[..i]));
        assert es[..i + 1] == es[..i] + [PutCache(dest, data[..i])];
        i := i + 1;
      }
      assert es[..n + 1] == es;
    }

    method FillBin(dest: string, data: Bytes, n: nat)
      requires Valid() && n <= |data|
      modifies this
      ensures Valid() && log == old(log) + BinWrites(dest, Filling(data, n))
      ensures cache == old(cache)
    {
      ghost var es := BinWrites(dest, Filling(data, n));
      var i := 0;
      while i <= n
        invariant 0 <= i <= n + 1
        invariant Valid() && log == old(log) + es[..i] && cache == old(cache)
      {
        Do(PutBin(dest, data[..i]));
        assert es[..i + 1] == es[..i] + [PutBin(dest, data[..i])];
        i := i + 1;
      }
      assert es[..n + 1] == es;
    }
  }

  class MachineDriver {
    const spec: Driver
    /** d.name, which Stage learns and Install needs. */
    var name: string

    constructor (spec: Driver, name: string)
      ensures this.spec == spec && this.name == name
    {
      this.spec, this.name := spec, name;
    }

    /** copyBinary. */
    method CopyBinary(host: DriverHost, key: string, bytes: Bytes, c: StageCalls) returns (r: Result)
      requires host.Valid()
      modifies host
      ensures host.Valid()
      ensures var w := DriverCache.CopyBinary(host.env, key, spec, bytes, c);
              r == w.result && host.log == old(host.log) + w.edits
    {
      hide Payload, Apply, ApplyAll;
      var payload := Payload(host.env, spec.url, bytes);
      if !c.spoolOk || payload.None? || !c.replaced {
        return Error(c.message);
      }
      var (driverName, data) := payload.value;
      var dest := PayloadFile(key, driverName);
      host.Do(DropCache(dest));
      if c.copy.OpenFails? {
        return Error(c.message);
      }
      host.FillCache(dest, data, if c.copy.FailsAfter? then Min(c.copy.n, |data|) else |data|);
      if c.copy.FailsAfter? || !c.indexWritten {
        if c.discarded {
          host.Do(DropCache(dest));
        }
        return Error(c.message);
      }
      host.Do(PutCache(key, driverName));
      return Ok(driverName);
    }

    /** stage. */
    method StageInner(host: DriverHost, c: StageCalls) returns (r: Result)
      requires host.Valid()
      modifies this, host
      ensures host.Valid()
      ensures var w := DriverCache.StageInner(host.env, old(host.View()), spec, old(name), c);
              r == w.result && host.log == old(host.log) + w.edits
      ensures r.Ok? ==> name == r.name
    {
      if spec.builtin {
        return Ok(name);
      }
      if !c.openOk {
        return Error(c.message);
      }
      var key := Key(host.env, spec);
      if !c.indexRead {
        name := "";
        return Error(c.message);
      }
      match IsInstalled(host.cache, key) {
        case Corrupt =>
          name := "";
          return Error(c.message);
        case Installed(driverName) =>
          name := driverName;
          return Ok(driverName);
        case NotInstalled =>
      }
      if !c.tempOk || c.download.None? || |c.download.value| > MAX_PAYLOAD {
        return Error(c.message);
      }
      if !HashMatches(host.env, c.download.value, spec.hash) || !c.closeOk {
        return Error(c.message);
      }
      r := CopyBinary(host, key, c.download.value, c);
      if r.Ok? {
        name := r.name;
      }
    }

    /** Stage, with getError before and setError after. */
    method Stage(host: DriverHost, c: StageCalls) returns (r: Result)
      requires host.Valid()
      modifies this, host
      ensures host.Valid()
      ensures var w := DriverCache.Stage(host.env, old(host.View()), spec, old(name), c);
              r == w.result && host.log == old(host.log) + w.edits
      ensures r.Ok? ==> name == r.name
    {
      hide DriverCache.StageInner, Apply, ApplyAll, SafeErrorMessage, ErrorFile;
      var file := ErrorFile(Key(host.env, spec));
      if !c.errorRead {
        return Error(c.message);
      }
      if file in host.cache {
        var content := host.cache[file];
        if c.errorDropped {
          host.Do(DropCache(file));
        }
        return Error(SafeErrorMessage(content));
      }
      r := StageInner(host, c);
      if r.Error? && c.errorWritten {
        host.Do(PutCache(file, r.message));
      }
    }

    /** Install, with the deferred removal of the temporary file at its end. */
    method Install(host: DriverHost, c: InstallCalls) returns (r: Result)
      requires host.Valid() && IsKey(Key(host.env, spec))
      modifies host
      ensures host.Valid()
      ensures var w := DriverCache.Install(host.env, old(host.View()), spec, name, c);
              r == w.result && host.log == old(host.log) + w.edits
    {
      if spec.builtin {
        return Ok(name);
      }
      var driverName := SafeDriverName(name);
      if driverName.None? {
        return Error("invalid name");
      }
      if !c.openOk {
        return Error("open");
      }
      var key := Key(host.env, spec);
      r := InstallFile(host, driverName.value, TmpName(driverName.value, key), PayloadFile(key, driverName.value), c);
    }

    /** removeIfPresent in the binary directory. */
    method DropTmp(host: DriverHost, tmp: string, dropped: bool)
      requires host.Valid()
      modifies host
      ensures host.Valid() && host.cache == old(host.cache)
      ensures host.log == old(host.log) + DriverCache.DropTmp(tmp, dropped)
    {
      if dropped {
        host.Do(DropBin(tmp));
      }
    }

    method InstallFile(host: DriverHost, driverName: string, tmp: string, src: string, c: InstallCalls)
      returns (r: Result)
      requires host.Valid()
      modifies host
      ensures host.Valid()
      ensures var w := DriverCache.InstallFile(old(host.View()), driverName, tmp, src, c);
              r == w.result && host.log == old(host.log) + w.edits
    {
      hide Apply, ApplyAll, BinWrites, Filling;
      DropTmp(host, tmp, c.staleDropped);
      if c.copy.OpenFails? {
        return Error("open");
      }
      r := Publish(host, driverName, tmp, src, c);
      DropTmp(host, tmp, c.tmpDropped);
    }

    /** From opening the temporary file to its renaming. */
    method Publish(host: DriverHost, driverName: string, tmp: string, src: string, c: InstallCalls)
      returns (r: Result)
      requires host.Valid() && !c.copy.OpenFails?
      modifies host
      ensures host.Valid()
      ensures var w := DriverCache.Publish(old(host.View()), driverName, tmp, src, c);
              r == w.result && host.log == old(host.log) + w.edits
    {
      hide Apply, ApplyAll, BinWrites, Filling;
      if src !in host.cache {
        host.Do(PutBin(tmp, ""));
        return Error("no payload");
      }
      var data := host.cache[src];
      host.FillBin(tmp, data, if c.copy.FailsAfter? then Min(c.copy.n, |data|) else |data|);
      if c.copy.FailsAfter? || !c.chmodOk || !c.renameOk {
        return Error("copy");
      }
      host.Do(RenameBin(tmp, driverName));
      return Ok(driverName);
    }

    /** The deletions of Remove, one after the other; the one after the first `steps` fails. */
    method Delete(host: DriverHost, deletions: seq<Edit>, steps: nat) returns (done: bool)
      requires host.Valid()
      modifies host
      ensures host.Valid() && (done <==> steps >= |deletions|)
      ensures host.log == old(host.log) + if done then deletions else deletions[..steps]
    {
      hide ApplyAll, Apply;
      var i := 0;
      while i < |deletions|
        invariant 0 <= i <= |deletions| && i <= steps
        invariant host.Valid() && host.log == old(host.log) + deletions[..i]
      {
        if i == steps {
          return false;
        }
        host.Do(deletions[i]);
        assert deletions[..i + 1] == deletions[..i] + [deletions[i]];
        i := i + 1;
      }
      assert deletions[..i] == deletions;
      return true;
    }

    /** Remove. */
    method Remove(host: DriverHost, steps: nat) returns (r: Result)
      requires host.Valid()
      modifies host
      ensures host.Valid()
      ensures var w := DriverCache.Remove(host.env, old(host.View()), spec, steps);
              r == w.result && host.log == old(host.log) + w.edits
    {
      hide IsInstalled, Apply, ApplyAll, Key;
      var key := Key(host.env, spec);
      match IsInstalled(host.cache, key)
      case Corrupt => return Error("corrupt");
      case NotInstalled => return Ok("");
      case Installed(driverName) =>
        var done := Delete(host, Deletions(key, driverName), steps);
        return if done then Ok("") else Error("remove");
    }
  }

  /** activate, between its API calls: stage, refuse a name already active, install. A
      success has put the genuine binary under the driver's name; a refusal leaves the
      installed binaries alone; the cache invariant holds at every moment. */
  method Activate(driver: MachineDriver, host: DriverHost, ghost known: set<Driver>,
                  c: StageCalls, nameTaken: bool, i: InstallCalls) returns (r: Result)
    requires host.Valid() && Distinct(host.env, known) && driver.spec in known && !driver.spec.builtin
    requires Invariant(host.env, host.View(), known)
    modifies driver, host
    ensures host.Valid() && |old(host.log)| <= |host.log| && host.log[..|old(host.log)|] == old(host.log)
    ensures Throughout(host.env, old(host.View()), host.log[|old(host.log)|..], known)
    ensures r.Ok? ==> r.name == driver.name && driver.name in host.bin
    ensures r.Ok? ==> Genuine(host.env, driver.spec, driver.name, host.bin[driver.name])
    ensures r.Ok? <==> !nameTaken && i.openOk && i.copy.Complete? && i.chmodOk && i.renameOk
                       && DriverCache.Stage(host.env, old(host.View()), driver.spec, old(driver.name), c).result.Ok?
    ensures nameTaken ==> host.bin == old(host.bin) && r.Error?
    ensures var staged := DriverCache.Stage(host.env, old(host.View()), driver.spec, old(driver.name), c);
            var t := ApplyAll(old(host.View()), staged.edits);
            if staged.result.Error? || nameTaken then r.Error? && host.log == old(host.log) + staged.edits
            else
              var w := DriverCache.Install(host.env, t, driver.spec, staged.result.name, i);
              r == w.result && host.log == old(host.log) + staged.edits + w.edits
  {
    ghost var s, log := host.View(), host.log;
    ghost var staged := DriverCache.Stage(host.env, s, driver.spec, driver.name, c);
    StageThroughout(host.env, s, known, driver.spec, driver.name, c);
    StageKeepsBin(host.env, s, driver.spec, driver.name, c);
    r := driver.Stage(host, c);
    ApplyConcat(host.start, log, staged.edits);
    DropFront(log, staged.edits, []);
    assert host.log == log + staged.edits + [] && staged.edits + [] == staged.edits;
    if r.Error? || nameTaken {
      return Error("");
    }
    ActivationThroughout(host.env, s, known, driver.spec, old(driver.name), c, i);
    DriverOutcomes.StagedInstalls(host.env, s, known, driver.spec, old(driver.name), c, i);
    ghost var installed := DriverCache.Install(host.env, host.View(), driver.spec, driver.name, i);
    ApplyConcat(host.start, host.log, installed.edits);
    r := driver.Install(host, i);
    DropFront(log, staged.edits, installed.edits);
  }

  lemma DropFront<T>(a: seq<T>, b: seq<T>, c: seq<T>)
    ensures (a + b + c)[|a|..] == b + c && (a + b + c)[..|a|] == a
  {
  }

  lemma ActivationThroughout(env: Env, s: Store, known: set<Driver>, d: Driver, current: string,
                             c: StageCalls, i: InstallCalls)
    requires Distinct(env, known) && d in known && Invariant(env, s, known) && !d.builtin
    requires DriverCache.Stage(env, s, d, current, c).result.Ok?
    ensures var staged := DriverCache.Stage(env, s, d, current, c);
            var t := ApplyAll(s, staged.edits);
            var w := DriverCache.Install(env, t, d, staged.result.name, i);
            var u := ApplyAll(t, w.edits);
            && Throughout(env, s, staged.edits + w.edits, known)
            && (w.result.Ok? ==>
                  && w.result.name == staged.result.name && staged.result.name in u.bin
                  && Genuine(env, d, staged.result.name, u.bin[staged.result.name]))
  {
    var staged := DriverCache.Stage(env, s, d, current, c);
    StageThroughout(env, s, known, d, current, c);
    assert staged.edits[..|staged.edits|] == staged.edits;
    var t := ApplyAll(s, staged.edits);
    InstallThroughout(env, t, known, d, staged.result.name, i);
    ThroughoutConcat(env, s, staged.edits, DriverCache.Install(env, t, d, staged.result.name, i).edits, known);
    StageThenInstall(env, s, known, d, current, c, i);
  }
}
