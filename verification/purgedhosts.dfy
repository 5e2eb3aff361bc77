/** When a host that a purge has deleted can come back (handlers/create.go, remove.go). */
module PurgedHosts {
  import opened Text
  import opened Lifecycle
  import opened LifecycleSafety
  import opened LifecycleRuns
  import opened MachineNames

  /** Some events, in which docker-machine keeps its contract, make a host. */
  ghost predicate CanComeBack(m: Machine, w: World)
    requires Valid(m)
  {
    exists events: seq<Event> ::
      (forall e :: e in events && e.Create? ==> Plausible(m, e.create.run)) && Run(m, w, events).cloud
  }

  /** A create event that succeeds, but whose cleanup, if needed, fails. */
  function LeavesHost(m: Machine): CreateCalls { SmoothCreate(m).(lsOk := false) }

  lemma LeavesHostMakesHost(m: Machine, w: World)
    requires Valid(m) && !Settled(m, w.snapshot)
    ensures AfterCreate(m, w, LeavesHost(m)).cloud && Plausible(m, LeavesHost(m).run)
  {
    SmoothCreateRuns(m, w);
    SmoothDiskIsPlausible(m);
    hide Load, Save, Plausible, Listed, DirToSave, SmoothDisk, Settled;
  }

  lemma RunOne(m: Machine, w: World, e: Event)
    requires Valid(m)
    ensures Run(m, w, [e]) == After(m, w, e)
  {
    hide After;
    assert Run(m, w, []) == w && [e][..0] == [];
  }

  /** A host that is not there can come back exactly if the snapshot restores to a
      directory without the machine. */
  lemma ComesBackExactly(m: Machine, w: World)
    requires Valid(m) && !w.cloud
    ensures CanComeBack(m, w) <==> !Settled(m, w.snapshot)
  {
    hide AfterCreate, Plausible, LeavesHost, Settled, Run;
    if Settled(m, w.snapshot) {
      forall events ensures !Run(m, w, events).cloud { SettledForEver(m, w, events); }
    } else {
      LeavesHostMakesHost(m, w);
      RunOne(m, w, Create(LeavesHost(m)));
    }
  }

  /** Over every run from a new machine in which the create events meet the assumptions,
      and a purge that reaches its end: the host can come back, redelivered create events
      being enough, if and only if no snapshot was stored by then. */
  lemma PurgedComesBackExactly(m: Machine, events: seq<Event>, p: PurgeCalls)
    requires Valid(m) && PortableMachine(m) && HonestEvents(m, events)
    requires AfterPurge(m, Run(m, FRESH, events), p).1.Purged?
    ensures CanComeBack(m, AfterPurge(m, Run(m, FRESH, events), p).0)
            <==> Run(m, FRESH, events).snapshot.Absent?
  {
    var w := Run(m, FRESH, events);
    RunThenPurge(m, events, p);
    SnapshotOfRun(m, events);
    ComesBackExactly(m, AfterPurge(m, w, p).0);
    if Stamped(m, w.snapshot) {
      StampedIsListed(m, w.snapshot);
    }
    hide Run, CanComeBack, PortableMachine, HonestEvents;
  }

  /** After a purge of an unsaved machine, one create event whose every call succeeds, a
      redelivery for one, makes the host again. */
  lemma RedeliveredCreateMakesHost(m: Machine, w: World, p: PurgeCalls)
    requires Valid(m) && PortableMachine(m) && ByteLen(m.name) <= 248
    requires w.snapshot.Absent? && AfterPurge(m, w, p).1.Purged?
    ensures var w' := AfterCreate(m, AfterPurge(m, w, p).0, SmoothCreate(m));
            w'.cloud && Stamped(m, w'.snapshot)
  {
    var purged := AfterPurge(m, w, p).0;
    assert purged.snapshot.Absent?;
    hide AfterPurge, AfterCreate, PortableMachine, Succeeds, ByteLen;
    SmoothCreateSucceeds(m, purged);
    StrandsExactly(m, purged, SmoothCreate(m));
  }
}
