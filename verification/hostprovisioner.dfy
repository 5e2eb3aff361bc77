/** The event handlers of one host as they run: deferred calls, early returns, the retry
    loop of the save. Each is proved to do what Lifecycle says of it. */
module HostProvisioner {
  import opened Options
  import opened UnixPath
  import opened DiskWrites
  import opened MachineArchive
  import opened MachineSave
  import opened Lifecycle
  import opened LifecycleSafety
  import opened ExpiringSets

  /** The deferred calls of CreateMachine. */
  datatype Deferred = RemoveDir | CleanupUnlessCreated | CloseChannel

  function Perform(m: Machine, w: World, call: Deferred, created: bool, lsOk: bool, rmOk: bool): World {
    match call
    case RemoveDir => w.(local := None)
    case CloseChannel => w
    case CleanupUnlessCreated =>
      if created || w.local.None? then w
      else
        var cleaned := Cleanup(w, Listed(m, w.local.value), lsOk, rmOk);
        if lsOk && Listed(m, w.local.value) && rmOk then cleaned.(local := None) else cleaned
  }

  /** Deferred calls run last in, first out. */
  function Unwind(m: Machine, w: World, calls: seq<Deferred>, created: bool, lsOk: bool, rmOk: bool): World
    decreases |calls|
  {
    if calls == [] then w
    else
      var n := |calls| - 1;
      Unwind(m, Perform(m, w, calls[n], created, lsOk, rmOk), calls[..n], created, lsOk, rmOk)
  }

  /** Cleanup in the directory, then its removal. */
  function Undone(m: Machine, w: World, created: bool, lsOk: bool, rmOk: bool): World {
    (if created || w.local.None? then w else Cleanup(w, Listed(m, w.local.value), lsOk, rmOk)).(local := None)
  }

  /** The deferred calls of CreateMachine at its three stages: cleanup before removal. */
  lemma UnwindStages(m: Machine, w: World, created: bool, lsOk: bool, rmOk: bool)
    ensures Unwind(m, w, [RemoveDir], created, lsOk, rmOk) == w.(local := None)
    ensures var undone := Undone(m, w, created, lsOk, rmOk);
            && Unwind(m, w, [RemoveDir, CleanupUnlessCreated], created, lsOk, rmOk) == undone
            && Unwind(m, w, [RemoveDir, CleanupUnlessCreated, CloseChannel], created, lsOk, rmOk) == undone
  {
  }

  /** Why the order matters: with the removal deferred after the cleanup, and so running
      before it, the host of a failed create stays at the provider for ever. */
  lemma RemovalBeforeCleanupLeaks(m: Machine, w: World)
    requires w.cloud && w.local.Some? && Listed(m, w.local.value)
    ensures !Unwind(m, w, [RemoveDir, CleanupUnlessCreated], false, true, true).cloud
    ensures Unwind(m, w, [CleanupUnlessCreated, RemoveDir], false, true, true).cloud
  {
  }

  /** One purge event: its resource, when it looks at the cache, how its calls end, and
      when it is done. */
  datatype TimedPurge = TimedPurge(id: string, before: int, calls: PurgeCalls, after: int)

  /** PurgeMachine with its cache. */
  ghost function AfterCachedPurge(m: Machine, w: World, adds: seq<Addition>, ttl: int, e: TimedPurge)
    : (World, seq<Addition>, PurgeEnd)
    requires Valid(m)
  {
    if Live(adds, ttl, e.id, e.before) then (w, adds, Purged)
    else
      var (w', end) := AfterPurge(m, w, e.calls);
      (w', if end.Purged? then adds + [Addition(e.id, e.after)] else adds, end)
  }

  /** A purge of a resource that was purged lately does nothing and is a success; any other
      one runs, and is remembered exactly if it reaches its end. So one that failed can be
      tried again at any time. */
  lemma CachedPurgeExactly(m: Machine, w: World, adds: seq<Addition>, ttl: int, e: TimedPurge)
    requires Valid(m)
    ensures var (w', adds', end) := AfterCachedPurge(m, w, adds, ttl, e);
            && (Live(adds, ttl, e.id, e.before) ==> w' == w && adds' == adds && end.Purged?)
            && (!Live(adds, ttl, e.id, e.before) ==> (w', end) == AfterPurge(m, w, e.calls))
            && (!end.Purged? ==> forall now :: Live(adds', ttl, e.id, now) <==> Live(adds, ttl, e.id, now))
            && (!Live(adds, ttl, e.id, e.before) && end.Purged? ==>
                  forall now :: Live(adds', ttl, e.id, now) <==> Live(adds, ttl, e.id, now) || now - e.after < ttl)
  {
    hide AfterPurge, Live;
    forall now { LiveSnoc(adds, Addition(e.id, e.after), ttl, e.id, now); }
  }

  /** The hosts behind the resources; they share one cache. */
  datatype Host = Host(m: Machine, w: World)
  type Fleet = map<string, Host>

  ghost predicate AllValid(fleet: Fleet) { forall id :: id in fleet ==> Valid(fleet[id].m) }

  ghost function AfterFleetPurge(fleet: Fleet, adds: seq<Addition>, ttl: int, e: TimedPurge)
    : (r: (Fleet, seq<Addition>))
    requires AllValid(fleet)
    ensures AllValid(r.0)
  {
    if e.id !in fleet then (fleet, adds)
    else
      var host := fleet[e.id];
      var step := AfterCachedPurge(host.m, host.w, adds, ttl, e);
      (fleet[e.id := Host(host.m, step.0)], step.1)
  }

  ghost function AfterPurges(fleet: Fleet, adds: seq<Addition>, ttl: int, es: seq<TimedPurge>)
    : (r: (Fleet, seq<Addition>))
    requires AllValid(fleet)
    ensures AllValid(r.0)
  {
    if es == [] then (fleet, adds)
    else
      var before := AfterPurges(fleet, adds, ttl, es[..|es| - 1]);
      AfterFleetPurge(before.0, before.1, ttl, es[|es| - 1])
  }

  /** One purge leaves a resource alone that is not its own, or that was purged lately. */
  lemma PurgeSpares(fleet: Fleet, adds: seq<Addition>, ttl: int, e: TimedPurge, a: Addition)
    requires AllValid(fleet) && a.key in fleet && a in adds
    requires e.id == a.key ==> e.before < a.at + ttl
    ensures var after := AfterFleetPurge(fleet, adds, ttl, e);
            && a.key in after.0 && after.0[a.key] == fleet[a.key]
            && forall x :: x in adds ==> x in after.1
  {
    if e.id == a.key {
      LiveUntilTtl(adds, ttl, a, e.before);
    }
  }

  /** After a purge that reached its end, no purge of the same resource within one ttl
      runs a delete or touches its host, whatever else is purged through the same cache
      meanwhile. */
  lemma {:induction false} NoSecondDeleteWithinTtl(fleet: Fleet, adds: seq<Addition>, ttl: int,
                                                  e: TimedPurge, es: seq<TimedPurge>)
    requires AllValid(fleet) && e.id in fleet && !Live(adds, ttl, e.id, e.before)
    requires AfterCachedPurge(fleet[e.id].m, fleet[e.id].w, adds, ttl, e).2.Purged?
    requires forall x :: x in es && x.id == e.id ==> x.before < e.after + ttl
    ensures var first := AfterFleetPurge(fleet, adds, ttl, e);
            var last := AfterPurges(first.0, first.1, ttl, es);
            && e.id in last.0 && last.0[e.id] == first.0[e.id]
            && Addition(e.id, e.after) in last.1
  {
    var first := AfterFleetPurge(fleet, adds, ttl, e);
    assert Addition(e.id, e.after) in first.1;
    if es != [] {
      hide AfterFleetPurge, AfterCachedPurge, AllValid, Live;
      var n := |es| - 1;
      assert es[n] in es;
      NoSecondDeleteWithinTtl(fleet, adds, ttl, e, es[..n]);
      var before := AfterPurges(first.0, first.1, ttl, es[..n]);
      PurgeSpares(before.0, before.1, ttl, es[n], Addition(e.id, e.after));
    }
  }

  class Provisioner {
    const m: Machine
    /** The absolute path of the machine's storage directory. */
    const source: string
    var cloud: bool
    var snapshot: Snapshot
    var local: Option<Disk>
    var log: seq<Command>

    ghost predicate Ready() { Valid(m) && Base(source) == m.root }

    ghost function View(): World
      reads this
    {
      World(cloud, snapshot, local, log)
    }

    constructor (m: Machine, source: string)
      requires Valid(m) && Base(source) == m.root
      ensures Ready() && this.m == m && View() == FRESH
    {
      this.m, this.source := m, source;
      cloud, snapshot, local, log := false, Absent, None, [];
    }

    method RemoveMachineDir()
      modifies this`local
      ensures local == None
    {
      local := None;
    }

    /** preEvent: an emptied directory, and the snapshot restored into it. */
    method PreEvent(entered: bool, leftover: Option<Disk>) returns (ok: bool)
      requires Ready()
      modifies this`local
      ensures ok <==> entered && Load(m, snapshot).Some?
      ensures local == if ok then Load(m, snapshot) else leftover
    {
      local := leftover;
      if !entered {
        return false;
      }
      var dir := new MachineDir();
      var r := dir.Restore(m.root, snapshot, true, true, NoFaults());
      if r.Failed? {
        return false;
      }
      local := Some(dir.nodes);
      return true;
    }

    method MachineExists(lsOk: bool) returns (failed: bool, found: bool)
      ensures failed <==> !lsOk
      ensures found <==> lsOk && local.Some? && Listed(m, local.value)
    {
      return !lsOk, lsOk && local.Some? && Listed(m, local.value);
    }

    /** `docker-machine rm -f`. */
    method DeleteMachine(rmOk: bool) returns (failed: bool)
      modifies this`cloud, this`log
      ensures failed <==> !rmOk
      ensures cloud == (old(cloud) && !rmOk) && log == old(log) + [RunRm]
    {
      log := log + [RunRm];
      cloud := cloud && !rmOk;
      return !rmOk;
    }

    /** `docker-machine create`. */
    method StartAndWait(run: CreateRun) returns (ok: bool)
      requires local.Some?
      modifies this`cloud, this`local, this`log
      ensures var r := RunOf(m, old(View()), old(local).value, run);
              && ok == r.ok && cloud == r.cloud && local == Some(r.disk)
      ensures log == old(log) + [RunCreate]
    {
      log := log + [RunCreate];
      if Listed(m, local.value) {
        return false;
      }
      cloud, local := run.cloud, Some(run.disk);
      return run.ok;
    }

    method CleanupResources(lsOk: bool, rmOk: bool)
      modifies this`cloud, this`local, this`log
      ensures View() == Perform(m, old(View()), CleanupUnlessCreated, false, lsOk, rmOk)
    {
      if local.None? {
        return;
      }
      var failed, found := MachineExists(lsOk);
      if failed || !found {
        return;
      }
      failed := DeleteMachine(rmOk);
      if failed {
        return;
      }
      RemoveMachineDir();
    }

    method TouchStamp(p: Path, written: bool)
      requires local.Some? && p != []
      modifies this`local
      ensures var touched := Touch(old(local).value, p);
              local == Some(if written && touched.Some? then touched.value else old(local).value)
    {
      var touched := Touch(local.value, p);
      if written && touched.Some? {
        local := touched;
      }
    }

    /** saveMachineConfig: archive the directory, close the writers without asking for
        errors, read the file, then up to three updates. */
    method SaveMachineConfig(flush: Flush, updates: seq<Reply>) returns (ok: bool)
      requires Ready() && local.Some? && WellFormed(local.value)
      modifies this`snapshot, this`local
      ensures (ok, snapshot) == Save(m, old(local).value, old(snapshot), flush, updates)
      ensures local.Some?
      ensures WellFormed(local.value) && (Listed(m, local.value) <==> Listed(m, old(local).value))
    {
      TarballIsPassedOver(m);
      var tarball := TarballPath(m);
      assert tarball[0] in tarball;
      var d := Touch(local.value, tarball);
      if d.None? {
        return false;
      }
      TouchKeepsTree(local.value, tarball);
      assert HostDir(m) != tarball by { assert |tarball| == 1; }
      local := d;
      var tar := new TarWriter();
      var archived := AddDirToArchive(source, d.value, tar, (p: Path) => false);
      if !archived {
        return false;
      }
      assert tar.entries == ArchiveOf(m.root, d.value);
      ok := Update(Flushed(tar.entries, flush), updates);
    }

    /** The retry loop. */
    method Update(packed: Snapshot, updates: seq<Reply>) returns (ok: bool)
      modifies this`snapshot
      ensures (ok, snapshot) == Retry(old(snapshot), packed, updates, 0)
    {
      var i := 0;
      while i < 3
        invariant 0 <= i <= 3
        invariant Retry(snapshot, packed, updates, i) == Retry(old(snapshot), packed, updates, 0)
      {
        var reply := if i < |updates| then updates[i] else NotStored;
        if reply != NotStored {
          snapshot := Updated(snapshot, packed);
        }
        if reply == Stored {
          return true;
        }
        i := i + 1;
      }
      return false;
    }

    method RunDeferred(calls: seq<Deferred>, created: bool, lsOk: bool, rmOk: bool)
      modifies this`cloud, this`local, this`log
      ensures View() == Unwind(m, old(View()), calls, created, lsOk, rmOk)
    {
      var n := |calls|;
      assert calls[..n] == calls;
      while n > 0
        invariant 0 <= n <= |calls|
        invariant snapshot == old(snapshot)
        invariant Unwind(m, View(), calls[..n], created, lsOk, rmOk)
                  == Unwind(m, old(View()), calls, created, lsOk, rmOk)
      {
        n := n - 1;
        assert calls[..n + 1][..n] == calls[..n];
        match calls[n]
        case RemoveDir => RemoveMachineDir();
        case CloseChannel =>
        case CleanupUnlessCreated =>
          if !created {
            CleanupResources(lsOk, rmOk);
          }
      }
    }

    lemma KeepTree(d: Disk, stamp: Path)
      requires Valid(m) && WellFormed(d) && (stamp == CreatedStamp(m) || stamp == BootstrappedStamp(m))
      ensures Touch(d, stamp).Some? ==> WellFormed(Touch(d, stamp).value)
    {
      HostDirIsStampParent(m);
      if Touch(d, stamp).Some? {
        TouchKeepsTree(d, stamp);
      }
    }

    /** CreateMachine from the start of `docker-machine create` on. */
    method CreateAndSave(c: CreateCalls) returns (created: bool)
      requires Ready() && local.Some? && WellFormed(c.run.disk)
      modifies this`cloud, this`snapshot, this`local, this`log
      ensures Undone(m, View(), created, c.lsOk, c.rmOk) == AfterStart(m, old(View()), old(local).value, c)
    {
      created := StartAndWait(c.run);
      if created {
        created := StampAndSave(c);
        if created {
          RemoveMachineDir();
        }
      }
    }

    method StampAndSave(c: CreateCalls) returns (saved: bool)
      requires Ready() && local.Some? && WellFormed(local.value)
      modifies this`snapshot, this`local
      ensures var stamped := DirToSave(m, old(local).value, c.stampWritten);
              && (saved, snapshot) == Save(m, stamped, old(snapshot), c.flush, c.updates)
              && local.Some? && (Listed(m, local.value) <==> Listed(m, stamped))
    {
      hide Save, Touch, WellFormed;
      KeepTree(local.value, CreatedStamp(m));
      TouchStamp(CreatedStamp(m), c.stampWritten);
      saved := SaveMachineConfig(c.flush, c.updates);
    }

    /** CreateMachine once preEvent has succeeded, up to its return, and the calls it has
        deferred by then. */
    method CreateBody(c: CreateCalls) returns (calls: seq<Deferred>, created: bool)
      requires Ready() && local.Some? && WellFormed(c.run.disk)
      modifies this`cloud, this`snapshot, this`local, this`log
      ensures Unwind(m, View(), calls, created, c.lsOk, c.rmOk) == AfterEntry(m, old(View()), old(local).value, c)
    {
      calls, created := [RemoveDir], false;
      UnwindStages(m, View(), created, c.lsOk, c.rmOk);
      if CreatedStamp(m) in local.value || !c.statOk {
        return;
      }
      calls := [RemoveDir, CleanupUnlessCreated];
      if !c.handled {
        return;
      }
      calls := [RemoveDir, CleanupUnlessCreated, CloseChannel];
      if !c.started {
        return;
      }
      created := CreateAndSave(c);
      UnwindStages(m, View(), created, c.lsOk, c.rmOk);
    }

    /** What happens depends on the restored directory, not on one from before. */
    lemma OnlyTheRestoredDirectoryCounts(w: World, local: Option<Disk>, d: Disk, c: CreateCalls)
      ensures AfterEntry(m, w.(local := local), d, c) == AfterEntry(m, w, d, c)
    {
    }

    /** CreateMachine. Whatever happens after preEvent, no directory is left behind. */
    method CreateMachine(c: CreateCalls)
      requires Ready() && WellFormed(c.run.disk)
      modifies this`cloud, this`snapshot, this`local, this`log
      ensures View() == AfterCreate(m, old(View()), c)
      ensures c.entered && Load(m, old(snapshot)).Some? ==> local == None
    {
      hide AfterEntry, Load, Unwind;
      var ok := PreEvent(c.entered, c.leftover);
      if !ok {
        return;
      }
      NoDirectoryLeft(m, View(), local.value, c);
      OnlyTheRestoredDirectoryCounts(old(View()), local, local.value, c);
      var calls, created := CreateBody(c);
      RunDeferred(calls, created, c.lsOk, c.rmOk);
    }

    /** ActivateMachine. */
    method ActivateMachine(b: BootstrapCalls)
      requires Ready()
      modifies this`snapshot, this`local
      ensures View() == AfterBootstrap(m, old(View()), b)
      ensures b.entered && Load(m, old(snapshot)).Some? ==> local == None
    {
      hide Load, Save, Touch;
      var ok := PreEvent(b.entered, b.leftover);
      if !ok {
        return;
      }
      LoadedIsTree(m, snapshot);
      KeepTree(local.value, BootstrappedStamp(m));
      if b.statOk && BootstrappedStamp(m) in local.value {
        ok := SaveMachineConfig(b.flush, b.updates);
      } else if b.agentRuns {
        var touched := Touch(local.value, BootstrappedStamp(m));
        if b.stampWritten && touched.Some? {
          local := touched;
          ok := SaveMachineConfig(b.flush, b.updates);
        }
      }
      RemoveMachineDir();
    }

    /** PurgeMachine: at most one delete, none if the resource was purged lately or is no
        machine, and a purge that reaches its end is remembered. */
    method PurgeMachine(cache: ExpiringSet, id: string, before: int, p: PurgeCalls, after: int)
      returns (end: PurgeEnd)
      requires Ready() && cache.Valid() && cache.clock <= before <= after
      modifies this`cloud, this`local, this`log, cache
      ensures cache.Valid() && cache.clock <= after
      ensures (View(), cache.adds, end) ==
              AfterCachedPurge(m, old(View()), old(cache.adds), cache.ttl, TimedPurge(id, before, p, after))
    {
      hide Load, Live, Listed;
      var purged := cache.Contains(id, before);
      if purged {
        return Purged;
      }
      if !p.known {
        return NoMachine;
      }
      var ok := PreEvent(p.entered, p.leftover);
      if !ok {
        return PurgeFailed;
      }
      var failed, found := MachineExists(p.lsOk);
      if !failed && found {
        failed := DeleteMachine(p.rmOk);
      }
      if !failed {
        cache.Add(id, after);
      }
      RemoveMachineDir();
      return if failed then PurgeFailed else Purged;
    }
  }
}
