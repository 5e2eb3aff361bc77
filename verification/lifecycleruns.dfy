/** Whole runs of create, bootstrap and purge events of one machine. */
module LifecycleRuns {
  import opened Options
  import opened Text
  import opened UnixPath
  import opened DiskWrites
  import opened MachineArchive
  import opened MachineSave
  import opened Lifecycle
  import opened LifecycleSafety

  ghost predicate HonestEvents(m: Machine, events: seq<Event>) {
    forall e :: e in events && e.Create? ==> Honest(m, e.create)
  }

  // ----- the two kinds of event that set provider and snapshot apart

  /** A purge that deletes the host of a stamped snapshot; the snapshot stays. */
  predicate Deletes(m: Machine, w: World, e: Event)
    requires Valid(m)
  {
    && e.Purge? && e.purge.known && e.purge.entered && e.purge.lsOk && e.purge.rmOk
    && Stamped(m, w.snapshot)
  }

  predicate SpoilsIn(m: Machine, w: World, e: Event)
    requires Valid(m)
  {
    e.Bootstrap? && Spoils(m, w, e.bootstrap)
  }

  ghost predicate SomeDeletes(m: Machine, w: World, events: seq<Event>)
    requires Valid(m)
  {
    exists i :: 0 <= i < |events| && Deletes(m, Run(m, w, events[..i]), events[i])
  }

  ghost predicate SomeSpoils(m: Machine, w: World, events: seq<Event>)
    requires Valid(m)
  {
    exists i :: 0 <= i < |events| && SpoilsIn(m, Run(m, w, events[..i]), events[i])
  }

  lemma SomeSnoc(m: Machine, w: World, events: seq<Event>)
    requires Valid(m) && events != []
    ensures var n := |events| - 1;
            var before := Run(m, w, events[..n]);
            && (SomeDeletes(m, w, events) <==> SomeDeletes(m, w, events[..n]) || Deletes(m, before, events[n]))
            && (SomeSpoils(m, w, events) <==> SomeSpoils(m, w, events[..n]) || SpoilsIn(m, before, events[n]))
  {
    hide Deletes, SpoilsIn, Run;
    var n := |events| - 1;
    assert forall i :: 0 <= i <= n ==> events[..n][..i] == events[..i];
  }

  // ----- single events

  /** What one event makes of a stamped snapshot: only a purge runs a command or takes the
      host away, and only a save that was cut short takes the stamp away. */
  lemma EventOfStamped(m: Machine, w: World, e: Event)
    requires Valid(m) && Stamped(m, w.snapshot)
    ensures var w' := After(m, w, e);
            && (Stamped(m, w'.snapshot) <==> !SpoilsIn(m, w, e))
            && (SpoilsIn(m, w, e) ==> Load(m, w'.snapshot).None?)
            && (w'.cloud <==> w.cloud && !Deletes(m, w, e))
            && (w'.log == w.log || (e.Purge? && w'.log == w.log + [RunRm]))
  {
    hide Load, Spoils, AfterCreate, AfterBootstrap;
    match e
    case Create(c) => StampedIsNotRecreated(m, w, c);
    case Bootstrap(b) => BootstrapKeepsStamp(m, w, b);
    case Purge(p) => StampedIsListed(m, w.snapshot);
  }

  lemma StampedIsListed(m: Machine, s: Snapshot)
    requires Valid(m) && Load(m, s).Some?
    requires CreatedStamp(m) in Load(m, s).value || BootstrappedStamp(m) in Load(m, s).value
    ensures Listed(m, Load(m, s).value)
  {
    LoadedIsTree(m, s);
    assert CreatedStamp(m)[..2] == HostDir(m) == BootstrappedStamp(m)[..2];
  }

  lemma EventOfUnloadable(m: Machine, w: World, e: Event)
    requires Valid(m) && Load(m, w.snapshot).None?
    ensures var w' := After(m, w, e); w'.cloud == w.cloud && w'.snapshot == w.snapshot && w'.log == w.log
  {
    hide Load, Save, AfterStart;
  }

  // ----- runs

  predicate OnlyDeletes(log: seq<Command>, log': seq<Command>) {
    |log| <= |log'| && log == log'[..|log|] && forall i :: |log| <= i < |log'| ==> log'[i] == RunRm
  }

  /** From a stamped snapshot, over every run with any failures: no create command is ever
      run again; the stamp stays exactly until a bootstrap event spoils the snapshot, which
      then never restores again; and the host stays exactly until a purge deletes it. */
  lemma {:induction false} StampedRunIsQuiet(m: Machine, w: World, events: seq<Event>)
    requires Valid(m) && Stamped(m, w.snapshot)
    ensures var w' := Run(m, w, events);
            && (Stamped(m, w'.snapshot) <==> !SomeSpoils(m, w, events))
            && (SomeSpoils(m, w, events) ==> Load(m, w'.snapshot).None?)
            && (w'.cloud <==> w.cloud && !SomeDeletes(m, w, events))
            && OnlyDeletes(w.log, w'.log)
            && ((forall e :: e in events ==> !e.Purge?) ==> w'.log == w.log)
  {
    if events != [] {
      var n := |events| - 1;
      StampedRunIsQuiet(m, w, events[..n]);
      SomeSnoc(m, w, events);
      hide After, Load, Spoils, SomeDeletes, SomeSpoils;
      var before := Run(m, w, events[..n]);
      assert events[n] in events;
      if Stamped(m, before.snapshot) {
        EventOfStamped(m, before, events[n]);
      } else {
        EventOfUnloadable(m, before, events[n]);
      }
    }
  }

  /** Over every run in which the create events meet the assumptions, redeliveries and any
      failures of bootstrap and purge included: the host exists exactly when the snapshot
      has the stamp or was spoilt when it had, unless a purge has deleted it. */
  lemma {:induction false} RunAgreesExactly(m: Machine, w: World, events: seq<Event>)
    requires Valid(m) && PortableMachine(m) && HonestEvents(m, events) && Agree(m, w)
    ensures var w' := Run(m, w, events);
            && (w'.cloud <==> (Stamped(m, w'.snapshot) || SomeSpoils(m, w, events)) && !SomeDeletes(m, w, events))
            && (SomeSpoils(m, w, events) ==> Load(m, w'.snapshot).None?)
            && (SomeDeletes(m, w, events) ==> Stamped(m, w'.snapshot) || SomeSpoils(m, w, events))
  {
    if events != [] {
      var n := |events| - 1;
      var before := Run(m, w, events[..n]);
      RunAgreesExactly(m, w, events[..n]);
      SomeSnoc(m, w, events);
      hide After, Load, Spoils, SomeDeletes, SomeSpoils, Honest, PortableMachine;
      assert events[n] in events;
      if Load(m, before.snapshot).None? {
        EventOfUnloadable(m, before, events[n]);
      } else if Stamped(m, before.snapshot) {
        EventOfStamped(m, before, events[n]);
      } else {
        EventOfUnstamped(m, before, events[n]);
      }
    }
  }

  lemma EventOfUnstamped(m: Machine, w: World, e: Event)
    requires Valid(m) && PortableMachine(m) && Agree(m, w) && !Stamped(m, w.snapshot)
    requires e.Create? ==> Honest(m, e.create)
    ensures Agree(m, After(m, w, e))
  {
    hide Load, Spoils, AfterCreate, AfterBootstrap, Honest, PortableMachine;
    match e
    case Create(c) => CreateKeepsAgreement(m, w, c);
    case Bootstrap(b) => BootstrapKeepsStamp(m, w, b);
    case Purge(_) =>
  }

  /** So host and stamp stay in step where no bootstrap event spoils the snapshot and no
      purge deletes the host. */
  lemma RunKeepsAgreement(m: Machine, w: World, events: seq<Event>)
    requires Valid(m) && PortableMachine(m) && HonestEvents(m, events) && Agree(m, w)
    ensures !SomeSpoils(m, w, events) && !SomeDeletes(m, w, events) ==> Agree(m, Run(m, w, events))
    ensures !SomeSpoils(m, w, events) ==> (Run(m, w, events).cloud ==> Stamped(m, Run(m, w, events).snapshot))
  {
    RunAgreesExactly(m, w, events);
  }

  /** A create event whose calls succeed: it runs, reports success, writes its stamp, and
      an archive of the directory is stored, seen by the save. */
  ghost predicate Succeeds(m: Machine, w: World, c: CreateCalls)
    requires Valid(m)
  {
    && Plausible(m, c.run) && RunsCreate(m, w, c) && c.run.ok && c.stampWritten
    && CanPack(m, c.run.disk) && !c.flush.Nothing? && Answered(c.updates, 0, Stored)
  }

  /** Such a create leaves a host. Its snapshot restores exactly if the whole archive was
      written and the names are portable, and then it has the stamp. */
  lemma StrandsExactly(m: Machine, w: World, c: CreateCalls)
    requires Valid(m) && Succeeds(m, w, c)
    ensures var w' := AfterCreate(m, w, c);
            && w'.cloud && w'.log == w.log + [RunCreate]
            && (Load(m, w'.snapshot).Some? <==> c.flush.Whole? && PortableMachine(m))
            && (Load(m, w'.snapshot).Some? ==>
                  Stamped(m, w'.snapshot) && TarballPath(m) !in Load(m, w'.snapshot).value)
  {
    SaveOfCreate(m, c, w.snapshot);
    hide Load, Save, CanPack, PortableMachine, Answered, DirToSave, Plausible, Touch;
  }

  /** With the whole archive and portable names: whatever events follow, create is never
      run again, and the host stays until a purge deletes it. */
  lemma SavedRunIsQuiet(m: Machine, w: World, c: CreateCalls, events: seq<Event>)
    requires Valid(m) && PortableMachine(m) && Succeeds(m, w, c) && c.flush.Whole?
    ensures var saved := AfterCreate(m, w, c);
            var w' := Run(m, saved, events);
            && (w'.cloud <==> !SomeDeletes(m, saved, events))
            && (Stamped(m, w'.snapshot) <==> !SomeSpoils(m, saved, events))
            && OnlyDeletes(w.log + [RunCreate], w'.log)
  {
    hide AfterCreate, PortableMachine, Succeeds, SomeDeletes, SomeSpoils;
    StrandsExactly(m, w, c);
    StampedRunIsQuiet(m, AfterCreate(m, w, c), events);
  }

  // ----- hosts that no event reaches any more

  /** A snapshot that does not restore is never replaced: every later event of any kind
      fails in preEvent, and a purge cannot find the host. */
  lemma {:induction false} UnloadableForEver(m: Machine, w: World, events: seq<Event>, p: PurgeCalls)
    requires Valid(m) && Load(m, w.snapshot).None?
    ensures var w' := Run(m, w, events);
            && w'.cloud == w.cloud && w'.snapshot == w.snapshot && w'.log == w.log
            && !AfterPurge(m, w', p).1.Purged? && AfterPurge(m, w', p).0.cloud == w.cloud
  {
    hide Load;
    if events != [] {
      var n := |events| - 1;
      UnloadableForEver(m, w, events[..n], p);
      EventOfUnloadable(m, Run(m, w, events[..n]), events[n]);
    }
  }

  lemma BootstrappedCanPack(m: Machine, d: Disk, b: BootstrapCalls)
    requires Valid(m) && WellFormed(d) && Archivable(d) && Listed(m, d)
    requires TarballPath(m) !in d && ByteLen(m.name) <= 248
    requires b.statOk && b.agentRuns && b.stampWritten
    ensures var d' := DirAfterBootstrap(m, d, b); d'.Some? && CanPack(m, d'.value)
  {
    HostDirIsStampParent(m);
    var p := BootstrappedStamp(m);
    assert |p| == 3;
    assert CanPack(m, d);
    hide CanPack, Touch, BootstrappedStamp, CreatedStamp, HostDir, Listed;
    hide ByteLen, Archivable, Archived, WellFormed, Proper;
    if p !in d {
      TouchesStamp(m, d, p);
      TouchedCanPack(m, d, p);
    }
  }

  /** When a bootstrap event that gets to its save spoils a stamped snapshot, made by a
      save of these handlers: exactly when the archive was cut short and stored. */
  lemma SpoilsExactly(m: Machine, w: World, b: BootstrapCalls)
    requires Valid(m) && Stamped(m, w.snapshot) && ByteLen(m.name) <= 248
    requires TarballPath(m) !in Load(m, w.snapshot).value
    requires b.entered && b.statOk && b.agentRuns && b.stampWritten
    ensures Spoils(m, w, b) <==> (b.flush.Cut? || b.flush.Headless?) && IsStored(b.updates)
  {
    LoadedIsTree(m, w.snapshot);
    StampedIsListed(m, w.snapshot);
    hide ByteLen, Load, Archivable, WellFormed, PortableTree, TarballPath, Listed, IsStored, DirAfterBootstrap, CanPack;
    BootstrappedCanPack(m, Load(m, w.snapshot).value, b);
  }

  /** A host whose snapshot was spoilt is stranded: it stays at the provider, and whatever
      follows, it can neither be restored nor purged. */
  lemma SpoiltHostIsStranded(m: Machine, w: World, b: BootstrapCalls, events: seq<Event>, p: PurgeCalls)
    requires Valid(m) && w.cloud && Spoils(m, w, b)
    ensures var w' := Run(m, AfterBootstrap(m, w, b), events);
            && w'.cloud && Load(m, w'.snapshot).None?
            && !AfterPurge(m, w', p).1.Purged? && AfterPurge(m, w', p).0.cloud
  {
    hide AfterBootstrap, Load, Spoils;
    BootstrapKeepsStamp(m, w, b);
    UnloadableForEver(m, AfterBootstrap(m, w, b), events, p);
  }

  /** It can happen to every saved host: a create and a bootstrap event in which every
      call whose error the code looks at succeeds, but the archive of the second is cut
      short when its writers are closed. */
  lemma SavedHostIsStranded(m: Machine, w: World, c: CreateCalls, b: BootstrapCalls,
                            events: seq<Event>, p: PurgeCalls)
    requires Valid(m) && PortableMachine(m) && Succeeds(m, w, c) && c.flush.Whole?
    requires b.entered && b.statOk && b.agentRuns && b.stampWritten && IsStored(b.updates)
    requires b.flush.Cut? || b.flush.Headless?
    ensures var w' := Run(m, AfterBootstrap(m, AfterCreate(m, w, c), b), events);
            w'.cloud && Load(m, w'.snapshot).None? && !AfterPurge(m, w', p).1.Purged?
  {
    StrandsExactly(m, w, c);
    hide AfterCreate, AfterBootstrap, Load, PortableMachine, IsStored;
    SpoilsExactly(m, AfterCreate(m, w, c), b);
    SpoiltHostIsStranded(m, AfterCreate(m, w, c), b, events, p);
  }

  // ----- purges

  /** A snapshot with the stamp restores to a directory that docker-machine lists, so
      the purge issues the delete; it reaches its end exactly when its calls succeed. */
  lemma PurgeDeletesWhatCreateMade(m: Machine, w: World, p: PurgeCalls)
    requires Valid(m) && Stamped(m, w.snapshot)
    ensures Listed(m, Load(m, w.snapshot).value)
    ensures var (w', end) := AfterPurge(m, w, p);
            && (end.Purged? <==> p.known && p.entered && p.lsOk && p.rmOk)
            && (p.known && p.entered && p.lsOk ==> w'.log == w.log + [RunRm])
            && (end.Purged? ==> !w'.cloud && w'.local == None)
  {
    StampedIsListed(m, w.snapshot);
  }

  /** From a new machine, any run of events and then a purge that reaches its end leaves
      no host at the provider. */
  lemma RunThenPurge(m: Machine, events: seq<Event>, p: PurgeCalls)
    requires Valid(m) && PortableMachine(m) && HonestEvents(m, events)
    ensures var w := Run(m, FRESH, events);
            var (w', end) := AfterPurge(m, w, p);
            end.Purged? ==> !w'.cloud && (w.cloud ==> w'.log == w.log + [RunRm])
  {
    var w := Run(m, FRESH, events);
    hide Run, SomeDeletes, SomeSpoils, HonestEvents, PortableMachine;
    RunAgreesExactly(m, FRESH, events);
    if Stamped(m, w.snapshot) {
      PurgeDeletesWhatCreateMade(m, w, p);
    }
  }

  /** docker-machine lists the machine in what the snapshot restores to, if it restores:
      no create event can make a host any more. */
  predicate Settled(m: Machine, s: Snapshot)
    requires Valid(m)
  {
    var d := Load(m, s);
    d.Some? ==> Listed(m, d.value)
  }

  lemma CreateOfSettled(m: Machine, w: World, c: CreateCalls)
    requires Valid(m) && Settled(m, w.snapshot)
    ensures var w' := AfterCreate(m, w, c); w'.snapshot == w.snapshot && (w'.cloud ==> w.cloud)
  {
    hide Load, Save, Listed, DirToSave;
  }

  lemma BootstrapOfSettled(m: Machine, w: World, b: BootstrapCalls)
    requires Valid(m) && Settled(m, w.snapshot)
    ensures var w' := AfterBootstrap(m, w, b); Settled(m, w'.snapshot) && w'.cloud == w.cloud
  {
    hide Load, Save, Listed, DirAfterBootstrap, Replaces;
    var loaded := Load(m, w.snapshot);
    if loaded.Some? && DirAfterBootstrap(m, loaded.value, b).Some? {
      SaveOfBootstrap(m, w.snapshot, b);
      var s := AfterBootstrap(m, w, b).snapshot;
      if s != w.snapshot && Load(m, s).Some? {
        StampedIsListed(m, s);
      }
    }
  }

  lemma {:induction false} SettledForEver(m: Machine, w: World, events: seq<Event>)
    requires Valid(m) && Settled(m, w.snapshot)
    ensures var w' := Run(m, w, events); Settled(m, w'.snapshot) && (w'.cloud ==> w.cloud)
  {
    if events != [] {
      hide AfterCreate, AfterBootstrap, Settled, Load, Listed;
      var n := |events| - 1;
      SettledForEver(m, w, events[..n]);
      match events[n]
      case Create(c) => CreateOfSettled(m, Run(m, w, events[..n]), c);
      case Bootstrap(b) => BootstrapOfSettled(m, Run(m, w, events[..n]), b);
      case Purge(_) =>
    }
  }

  /** Between events of a run from a new machine, a snapshot is missing, has the stamp, or
      does not restore. */
  lemma {:induction false} SnapshotOfRun(m: Machine, events: seq<Event>)
    requires Valid(m) && PortableMachine(m) && HonestEvents(m, events)
    ensures var s := Run(m, FRESH, events).snapshot; s.Absent? || Stamped(m, s) || Load(m, s).None?
  {
    if events != [] {
      hide After, Load, Honest, PortableMachine, Spoils;
      var n := |events| - 1;
      SnapshotOfRun(m, events[..n]);
      assert events[n] in events;
      var before := Run(m, FRESH, events[..n]);
      if Stamped(m, before.snapshot) {
        EventOfStamped(m, before, events[n]);
      } else if before.snapshot.Absent? {
        EventOfUnsaved(m, before, events[n]);
      } else {
        EventOfUnloadable(m, before, events[n]);
      }
    }
  }

  lemma CreateOfUnsaved(m: Machine, w: World, c: CreateCalls)
    requires Valid(m) && PortableMachine(m) && w.snapshot.Absent? && Honest(m, c)
    ensures var s := AfterCreate(m, w, c).snapshot; s.Absent? || Stamped(m, s)
  {
    if RunsCreate(m, w, c) && c.run.ok {
      SaveOfCreate(m, c, w.snapshot);
    }
    hide Save, CanPack, PortableMachine, Answered, DirToSave, Plausible, Touch, ByteLen, Stamped;
  }

  lemma EventOfUnsaved(m: Machine, w: World, e: Event)
    requires Valid(m) && PortableMachine(m) && w.snapshot.Absent?
    requires e.Create? ==> Honest(m, e.create)
    ensures var s := After(m, w, e).snapshot; s.Absent? || Stamped(m, s)
  {
    hide AfterCreate, Save, Honest, PortableMachine, ByteLen;
    match e
    case Create(c) => CreateOfUnsaved(m, w, c);
    case Bootstrap(b) => assert DirAfterBootstrap(m, map[], b).None?;
    case Purge(_) =>
  }

  // ----- names that leave no room for the tarball's

  lemma TooLongToPack(m: Machine, d: Disk, flush: Flush)
    requires Valid(m) && ByteLen(m.name) > 248
    ensures Pack(m, d, flush).None?
  {
    PackExactly(m, d, flush);
  }

  lemma LongNameSave(m: Machine, d: Disk, s: Snapshot, flush: Flush, updates: seq<Reply>)
    requires Valid(m) && ByteLen(m.name) > 248
    ensures Save(m, d, s, flush, updates) == (false, s)
  {
    TooLongToPack(m, d, flush);
  }

  lemma LongNameStart(m: Machine, w: World, d: Disk, c: CreateCalls)
    requires Valid(m) && ByteLen(m.name) > 248
    ensures AfterStart(m, w, d, c).snapshot == w.snapshot
  {
    hide Save, DirToSave, ByteLen, Proper, RunOf, Listed;
    LongNameSave(m, DirToSave(m, RunOf(m, w, d, c.run).disk, c.stampWritten), w.snapshot, c.flush, c.updates);
  }

  lemma LongNameEvent(m: Machine, w: World, e: Event)
    requires Valid(m) && ByteLen(m.name) > 248
    ensures After(m, w, e).snapshot == w.snapshot
  {
    hide Load, Save, AfterStart, DirAfterBootstrap, ByteLen, Proper, Listed;
    var loaded := Load(m, w.snapshot);
    match e
    case Create(c) =>
      if loaded.Some? {
        LongNameStart(m, w, loaded.value, c);
      }
    case Bootstrap(b) =>
      if loaded.Some? {
        var d := DirAfterBootstrap(m, loaded.value, b);
        if d.Some? {
          LongNameSave(m, d.value, w.snapshot, b.flush, b.updates);
        }
      }
    case Purge(_) =>
  }

  /** A machine with a name of more than 248 bytes can never be saved: no run of events
      changes its snapshot. */
  lemma {:induction false} LongNameIsNeverSaved(m: Machine, w: World, events: seq<Event>)
    requires Valid(m) && ByteLen(m.name) > 248
    ensures Run(m, w, events).snapshot == w.snapshot
  {
    if events != [] {
      hide After, ByteLen;
      LongNameIsNeverSaved(m, w, events[..|events| - 1]);
      LongNameEvent(m, Run(m, w, events[..|events| - 1]), events[|events| - 1]);
    }
  }
}
