/** What one create, bootstrap or purge event does to the provider, to the snapshot and to
    the contents of a machine directory, from the outcomes of its calls alone. */
module HandlerOutcomes {
  import opened Options
  import opened Text
  import opened UnixPath
  import opened DiskWrites
  import opened ArchiveNames
  import opened MachineArchive
  import opened MachineSave
  import opened RoundTrip
  import opened Lifecycle
  import opened LifecycleSafety
  import opened LifecycleRuns

  // ----- the files that the handlers look for

  predicate HasMachine(d: Disk, name: string) { ["machines", name] in d && d[["machines", name]].Dir? }
  predicate HasCreated(d: Disk, name: string) { ["machines", name, "created"] in d }
  predicate HasBootstrapped(d: Disk, name: string) { ["machines", name, "bootstrapped"] in d }

  // ----- create

  /** The event gets past its look for the stamp, and finds none. */
  predicate FindsNoStamp(m: Machine, w: World, c: CreateCalls)
    requires Valid(m)
  {
    var d := Load(m, w.snapshot);
    c.entered && d.Some? && c.statOk && !HasCreated(d.value, m.name)
  }

  /** `docker-machine create` makes the machine: it is started, does not know the name yet,
      and reports success. */
  predicate Makes(m: Machine, w: World, c: CreateCalls)
    requires Valid(m)
  {
    FindsNoStamp(m, w, c) && c.handled && c.started && !HasMachine(Load(m, w.snapshot).value, m.name) && c.run.ok
  }

  /** The directory that the event ends with. */
  function FinalDisk(m: Machine, w: World, c: CreateCalls): Disk
    requires Valid(m) && FindsNoStamp(m, w, c)
  {
    var d := Load(m, w.snapshot).value;
    if c.handled && c.started && !HasMachine(d, m.name) then c.run.disk else d
  }

  /** It reports success: the machine is made and its save is answered as stored. */
  predicate Reports(m: Machine, w: World, c: CreateCalls)
    requires Valid(m)
  {
    Makes(m, w, c) && CanPack(m, DirToSave(m, c.run.disk, c.stampWritten)) && Answered(c.updates, 0, Stored)
  }

  /** It deletes the host again: past the look for the stamp, whatever failed after it,
      if the machine is listed in the directory then. */
  predicate CleansUp(m: Machine, w: World, c: CreateCalls)
    requires Valid(m)
  {
    FindsNoStamp(m, w, c) && !Reports(m, w, c) && c.lsOk && HasMachine(FinalDisk(m, w, c), m.name)
  }

  lemma TouchKeepsListing(m: Machine, d: Disk, stampWritten: bool)
    ensures HasMachine(DirToSave(m, d, stampWritten), m.name) <==> HasMachine(d, m.name)
  {
    assert |CreatedStamp(m)| == 3 && |HostDir(m)| == 2;
    hide ByteLen;
  }

  lemma SaveReports(m: Machine, d: Disk, s: Snapshot, flush: Flush, updates: seq<Reply>)
    requires Valid(m)
    ensures Save(m, d, s, flush, updates).0 <==> CanPack(m, d) && Answered(updates, 0, Stored)
  {
    PackExactly(m, d, flush);
    if CanPack(m, d) {
      RetryOutcome(s, Pack(m, d, flush).value, updates, 0);
    }
  }

  /** What the event does once it has started `docker-machine create` in d. */
  lemma StartExactly(m: Machine, w: World, d: Disk, c: CreateCalls)
    requires Valid(m)
    ensures var w' := AfterStart(m, w, d, c);
            var listed := HasMachine(d, m.name);
            var reports := !listed && c.run.ok && CanPack(m, DirToSave(m, c.run.disk, c.stampWritten))
                           && Answered(c.updates, 0, Stored);
            var cleans := !reports && c.lsOk && HasMachine(if listed then d else c.run.disk, m.name);
            && w'.log == w.log + [RunCreate] + (if cleans then [RunRm] else [])
            && w'.cloud == ((if listed then w.cloud else c.run.cloud) && !(cleans && c.rmOk))
            && (listed || !c.run.ok ==> w'.snapshot == w.snapshot) && w'.local == None
  {
    hide Save, DirToSave, CanPack, Answered, Proper;
    if HasMachine(d, m.name) {
      assert RunOf(m, w, d, c.run) == CreateRun(false, d, w.cloud);
    } else {
      assert RunOf(m, w, d, c.run) == c.run;
      TouchKeepsListing(m, c.run.disk, c.stampWritten);
      SaveReports(m, DirToSave(m, c.run.disk, c.stampWritten), w.snapshot, c.flush, c.updates);
    }
  }

  /** The commands of a create event, and what becomes of the host: create is run exactly
      if the event is handled and started without a stamp, the delete exactly if the event
      cleans up. A create for a name that is listed already leaves the host alone. */
  lemma CreateExactly(m: Machine, w: World, c: CreateCalls)
    requires Valid(m)
    ensures var w' := AfterCreate(m, w, c);
            var runs := FindsNoStamp(m, w, c) && c.handled && c.started;
            && w'.log == w.log + (if runs then [RunCreate] else []) + (if CleansUp(m, w, c) then [RunRm] else [])
            && var made := if runs && !HasMachine(Load(m, w.snapshot).value, m.name) then c.run.cloud else w.cloud;
               w'.cloud == (made && !(CleansUp(m, w, c) && c.rmOk))
    ensures !Makes(m, w, c) ==> AfterCreate(m, w, c).snapshot == w.snapshot
    ensures AfterCreate(m, w, c).local == if c.entered && Load(m, w.snapshot).Some? then None else c.leftover
  {
    hide Load, DirToSave, CanPack, Answered, AfterStart;
    if FindsNoStamp(m, w, c) && c.handled && c.started {
      StartExactly(m, w, Load(m, w.snapshot).value, c);
    }
  }

  /** What is saved after a successful create: the directory with its stamp. */
  lemma StampedTree(m: Machine, c: CreateCalls)
    requires Valid(m) && PortableMachine(m) && Plausible(m, c.run) && c.run.ok && c.stampWritten
    ensures var d := DirToSave(m, c.run.disk, true);
            && WellFormed(d) && NamesPortable(m.root, d) && CreatedStamp(m) in ArchivedPaths(d)
            && d[CreatedStamp(m)] == File(438, "")
            && (CanPack(m, c.run.disk) ==> CanPack(m, d))
            && forall p :: p in ArchivedPaths(c.run.disk) ==> p in ArchivedPaths(d) && d[p] == c.run.disk[p]
  {
    HostDirIsStampParent(m);
    CreatedTree(m, c.run);
    StampedCanPack(m, c.run, true);
    TouchKeepsTree(c.run.disk, CreatedStamp(m));
    CreatedTreeIsPortable(m, c.run, DirToSave(m, c.run.disk, true));
    hide CanPack, WellFormed, Archived, NamesPortable, PortableMachine, ByteLen, Listed;
  }

  lemma SnapshotOfCreate(m: Machine, w: World, c: CreateCalls)
    requires Valid(m) && Succeeds(m, w, c)
    ensures AfterCreate(m, w, c).snapshot
            == Save(m, DirToSave(m, c.run.disk, true), w.snapshot, c.flush, c.updates).1
  {
    hide Load, Save, CanPack, DirToSave, Plausible, Answered;
  }

  lemma SavedInFull(m: Machine, w: World, c: CreateCalls, p: Path)
    requires Valid(m) && PortableMachine(m) && Succeeds(m, w, c) && c.flush.Whole?
    requires p in ArchivedPaths(DirToSave(m, c.run.disk, true))
    ensures var d := Load(m, AfterCreate(m, w, c).snapshot);
            d.Some? && p in d.value && ComesBackAs(DirToSave(m, c.run.disk, true)[p], d.value[p])
  {
    StampedTree(m, c);
    SnapshotOfCreate(m, w, c);
    hide Load, Save, CanPack, PortableMachine, DirToSave, Plausible, AfterCreate, ArchivedPaths, NamesPortable,
         WellFormed, ComesBackAs, RunsCreate;
    SaveKeepsContents(m, DirToSave(m, c.run.disk, true), w.snapshot, c.flush, c.updates, p);
  }

  lemma StampedOnSuccess(m: Machine, w: World, c: CreateCalls)
    requires Valid(m) && PortableMachine(m) && Succeeds(m, w, c)
    ensures var d := DirToSave(m, c.run.disk, true);
            && ["machines", m.name, "created"] in ArchivedPaths(d)
            && d[["machines", m.name, "created"]] == File(438, "")
            && forall p :: p in ArchivedPaths(c.run.disk) ==> p in ArchivedPaths(d) && d[p] == c.run.disk[p]
  {
    StampedTree(m, c);
  }

  /** A create whose checked calls succeed saves everything: its stamp, and every archived
      file that docker-machine left, come back from the snapshot. */
  lemma CreateSavesEverything(m: Machine, w: World, c: CreateCalls, p: Path)
    requires Valid(m) && PortableMachine(m) && Succeeds(m, w, c) && c.flush.Whole?
    requires p in ArchivedPaths(c.run.disk)
    ensures var d := Load(m, AfterCreate(m, w, c).snapshot);
            d.Some? && p in d.value && ComesBackAs(c.run.disk[p], d.value[p])
  {
    hide Load, Succeeds, PortableMachine, DirToSave, AfterCreate, ComesBackAs, Archived;
    StampedOnSuccess(m, w, c);
    SavedInFull(m, w, c, p);
  }

  lemma CreateSavesStamp(m: Machine, w: World, c: CreateCalls)
    requires Valid(m) && PortableMachine(m) && Succeeds(m, w, c) && c.flush.Whole?
    ensures var d := Load(m, AfterCreate(m, w, c).snapshot);
            d.Some? && HasCreated(d.value, m.name) && d.value[["machines", m.name, "created"]] == File(438, "")
  {
    hide Load, Succeeds, PortableMachine, DirToSave, AfterCreate, Archived;
    StampedOnSuccess(m, w, c);
    SavedInFull(m, w, c, ["machines", m.name, "created"]);
  }

  // ----- bootstrap

  /** The event gets to its save: the agent was installed before, or is now. */
  predicate GetsToSave(m: Machine, w: World, b: BootstrapCalls)
    requires Valid(m)
  {
    var d := Load(m, w.snapshot);
    && b.entered && d.Some?
    && ((b.statOk && HasBootstrapped(d.value, m.name))
        || (b.agentRuns && b.stampWritten && HasMachine(d.value, m.name)
            && (HasBootstrapped(d.value, m.name) ==> d.value[["machines", m.name, "bootstrapped"]].File?)))
  }

  lemma BootstrapPaths(m: Machine, d: Disk)
    ensures var p := BootstrappedStamp(m);
            && p == ["machines", m.name, "bootstrapped"] && |p| == 3 && Parent(p) == p[..2] == ["machines", m.name]
    ensures Touch(d, BootstrappedStamp(m)).Some? <==>
            if HasBootstrapped(d, m.name) then d[["machines", m.name, "bootstrapped"]].File? else HasMachine(d, m.name)
  {
    StampIsShort(m);
    hide ByteLen;
  }

  lemma TouchesBootstrapped(m: Machine, d: Disk)
    requires WellFormed(d)
    ensures HasBootstrapped(d, m.name) ==> HasMachine(d, m.name)
    ensures Touch(d, BootstrappedStamp(m)).Some? <==>
            HasMachine(d, m.name)
            && (HasBootstrapped(d, m.name) ==> d[["machines", m.name, "bootstrapped"]].File?)
  {
    BootstrapPaths(m, d);
    var p := BootstrappedStamp(m);
    hide Touch, Proper, BootstrappedStamp;
    assert p in d ==> p[..2] in d && d[p[..2]].Dir?;
  }

  lemma SavesSomething(m: Machine, w: World, b: BootstrapCalls)
    requires Valid(m)
    ensures GetsToSave(m, w, b) <==>
            b.entered && Load(m, w.snapshot).Some? && DirAfterBootstrap(m, Load(m, w.snapshot).value, b).Some?
  {
    hide Load, WellFormed, PortableTree, Archivable, Touch;
    if Load(m, w.snapshot).Some? {
      LoadedIsTree(m, w.snapshot);
      TouchesBootstrapped(m, Load(m, w.snapshot).value);
    }
  }

  /** The directory that it saves. */
  function DirSaved(m: Machine, w: World, b: BootstrapCalls): Disk
    requires Valid(m) && GetsToSave(m, w, b)
  {
    SavesSomething(m, w, b);
    DirAfterBootstrap(m, Load(m, w.snapshot).value, b).value
  }

  lemma SnapshotOfBootstrap(m: Machine, w: World, b: BootstrapCalls)
    requires Valid(m) && GetsToSave(m, w, b)
    ensures DirAfterBootstrap(m, Load(m, w.snapshot).value, b) == Some(DirSaved(m, w, b))
    ensures AfterBootstrap(m, w, b).snapshot == Save(m, DirSaved(m, w, b), w.snapshot, b.flush, b.updates).1
  {
    SavesSomething(m, w, b);
    hide Load, Save, DirAfterBootstrap;
  }

  /** A bootstrap event leaves the snapshot alone unless it gets to its save and that is
      stored. What it puts there in full has the bootstrap stamp. */
  lemma BootstrapExactly(m: Machine, w: World, b: BootstrapCalls)
    requires Valid(m)
    ensures var w' := AfterBootstrap(m, w, b);
            && (!GetsToSave(m, w, b) || !IsStored(b.updates) ==> w'.snapshot == w.snapshot)
            && (GetsToSave(m, w, b) && IsStored(b.updates) && b.flush.Whole? && CanPack(m, DirSaved(m, w, b)) ==>
                  Load(m, w'.snapshot).Some? && HasBootstrapped(Load(m, w'.snapshot).value, m.name))
            && w'.local == if b.entered && Load(m, w.snapshot).Some? then None else b.leftover
  {
    hide Load, Save, DirAfterBootstrap, CanPack, GetsToSave, DirSaved, IsStored, Stamped;
    SavesSomething(m, w, b);
    if GetsToSave(m, w, b) {
      SaveOfBootstrap(m, w.snapshot, b);
      SnapshotOfBootstrap(m, w, b);
    }
  }

  /** And it loses nothing: every archived file that had been restored comes back. */
  lemma BootstrapKeepsContents(m: Machine, w: World, b: BootstrapCalls, p: Path)
    requires Valid(m) && GetsToSave(m, w, b) && b.flush.Whole?
    requires Replaces(m, DirSaved(m, w, b), b.flush, b.updates)
    requires p in ArchivedPaths(Load(m, w.snapshot).value) && p != BootstrappedStamp(m)
    ensures var d, d' := Load(m, w.snapshot).value, Load(m, AfterBootstrap(m, w, b).snapshot);
            d'.Some? && p in d'.value && ComesBackAs(d[p], d'.value[p])
  {
    var d, d1 := Load(m, w.snapshot).value, DirSaved(m, w, b);
    LoadedIsTree(m, w.snapshot);
    SavesSomething(m, w, b);
    DirAfterBootstrapIsTree(m, w.snapshot, b);
    DirSavedKeeps(m, d, b, p);
    hide Load, Save, DirAfterBootstrap, Replaces, ComesBackAs, WellFormed, Archived, NamesPortable, GetsToSave;
    SaveKeepsContents(m, d1, w.snapshot, b.flush, b.updates, p);
  }

  lemma DirSavedKeeps(m: Machine, d: Disk, b: BootstrapCalls, p: Path)
    requires p in d && p != BootstrappedStamp(m) && DirAfterBootstrap(m, d, b).Some?
    ensures var d1 := DirAfterBootstrap(m, d, b).value; p in d1 && d1[p] == d[p]
  {
    hide ByteLen;
  }

  // ----- purge

  /** A purge deletes exactly a machine that it knows, restores and finds listed; it reaches
      its end exactly if none of its calls fails; and it leaves the snapshot alone. */
  lemma PurgeExactly(m: Machine, w: World, p: PurgeCalls)
    requires Valid(m)
    ensures var (w', end) := AfterPurge(m, w, p);
            var d := Load(m, w.snapshot);
            var restored := p.known && p.entered && d.Some?;
            var deletes := restored && p.lsOk && HasMachine(d.value, m.name);
            && w'.log == w.log + (if deletes then [RunRm] else [])
            && w'.cloud == (w.cloud && !(deletes && p.rmOk))
            && w'.snapshot == w.snapshot
            && (end.NoMachine? <==> !p.known)
            && (end.Purged? <==> restored && p.lsOk && (HasMachine(d.value, m.name) ==> p.rmOk))
            && w'.local == if restored then None else if p.known then p.leftover else w.local
  {
    hide Load;
  }
}
