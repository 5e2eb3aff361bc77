/** The life of one cloud host under create, bootstrap and purge events: what each
    handler leaves behind, as a function of the state it finds and of how the calls it
    makes turn out (handlers/create.go, bootstrap.go, remove.go, common.go). */
module Lifecycle {
  import opened Options
  import opened Text
  import opened UnixPath
  import opened DiskWrites
  import opened MachineArchive
  import opened MachineSave
  import opened Orders

  /** The name of the storage directory, and the name docker-machine knows. */
  datatype Machine = Machine(root: string, name: string)

  predicate Valid(m: Machine) { Proper(m.root) && Proper(m.name) }

  datatype Command = RunCreate | RunRm

  /** cloud: the host exists at the provider. snapshot: ExtractedConfig, kept by the
      control plane. local: the working directory, if there is one. log: the commands
      run so far that touch the provider. */
  datatype World = World(cloud: bool, snapshot: Snapshot, local: Option<Disk>, log: seq<Command>)

  const FRESH := World(false, Absent, None, [])

  /** An answer of the control plane to an update: stored, refused without effect, or
      stored although the caller sees an error. */
  datatype Reply = Stored | NotStored | StoredUnseen

  /** How `docker-machine create` ends: its exit, its store, and the provider. */
  datatype CreateRun = CreateRun(ok: bool, disk: Disk, cloud: bool)

  /** What an archive file holds after its writers were closed, when it is read again: all
      that a restore needs, the first n entries and no end, less than a header, or nothing.
      The errors of closing are ignored, so a save takes any of them for a success. */
  datatype Flush = Whole | Cut(n: nat) | Headless | Nothing

  datatype CreateCalls = CreateCalls(
    entered: bool, leftover: Option<Disk>,  // preEvent: its remote calls and the jail
    statOk: bool, handled: bool, started: bool, run: CreateRun,
    stampWritten: bool, flush: Flush, updates: seq<Reply>,
    lsOk: bool, rmOk: bool)

  datatype BootstrapCalls = BootstrapCalls(
    entered: bool, leftover: Option<Disk>, statOk: bool,
    agentRuns: bool, stampWritten: bool, flush: Flush, updates: seq<Reply>)

  /** known: the control plane has a machine for the resource. */
  datatype PurgeCalls = PurgeCalls(known: bool, entered: bool, leftover: Option<Disk>, lsOk: bool, rmOk: bool)

  /** How a purge ends: with an error, with a mere reply, or at its end. */
  datatype PurgeEnd = PurgeFailed | NoMachine | Purged

  datatype Event = Create(create: CreateCalls) | Bootstrap(bootstrap: BootstrapCalls) | Purge(purge: PurgeCalls)

  function HostDir(m: Machine): Path { ["machines", m.name] }
  function CreatedStamp(m: Machine): Path { ["machines", m.name, "created"] }
  function BootstrappedStamp(m: Machine): Path { ["machines", m.name, "bootstrapped"] }
  function TarballPath(m: Machine): Path { [m.name + ".tar.gz"] }

  /** `docker-machine ls` shows the machine: its store has a directory for it. */
  predicate Listed(m: Machine, d: Disk) { HostDir(m) in d && d[HostDir(m)].Dir? }

  function NoFaults(): nat -> Fault { (k: nat) => Healthy }

  /** What preEvent restores into the emptied working directory. */
  function Load(m: Machine, s: Snapshot): Option<Disk>
    requires Valid(m)
  {
    match s
    case Absent => Some(map[])
    case Undecodable => None
    case Stream(es, intact) =>
      if Restorable(m.root, es, intact) then Some(Replay(map[], Writes(m.root, es), NoFaults()).disk) else None
  }

  predicate Stamped(m: Machine, s: Snapshot)
    requires Valid(m)
  {
    var d := Load(m, s);
    d.Some? && CreatedStamp(m) in d.value
  }

  /** The longest name, in bytes, that a file can have. */
  const NAME_MAX := 255

  /** Opening a file to write: truncates it or creates it in an existing directory. */
  function Touch(d: Disk, p: Path): Option<Disk>
    requires p != []
  {
    if ByteLen(Last(p)) > NAME_MAX then None
    else if p in d then (if d[p].File? then Some(d[p := File(d[p].mode, "")]) else None)
    else if |p| == 1 || (Parent(p) in d && d[Parent(p)].Dir?) then Some(d[p := File(438, "")])
    else None
  }

  /** The text of an archive file: an empty file gives an empty text. */
  function Flushed(es: seq<Entry>, flush: Flush): Snapshot {
    match flush
    case Whole => Stream(es, true)
    case Cut(n) => Stream(es[..Min(n, |es|)], false)
    case Headless => Undecodable
    case Nothing => Absent
  }

  /** createExtractedConfig: open the tarball inside the directory, then walk it, close
      the writers, and read the tarball. */
  function Pack(m: Machine, d: Disk, flush: Flush): Option<Snapshot> {
    var withTarball := Touch(d, TarballPath(m));
    if withTarball.None? || !Archivable(withTarball.value) then None
    else Some(Flushed(ArchiveOf(m.root, withTarball.value), flush))
  }

  /** What a stored update leaves: an empty text is omitted from the request. */
  function Updated(held: Snapshot, packed: Snapshot): Snapshot { if packed.Absent? then held else packed }

  /** The retry loop of saveMachineConfig from attempt i on. */
  function Retry(held: Snapshot, packed: Snapshot, updates: seq<Reply>, i: nat): (bool, Snapshot)
    decreases 3 - i
  {
    if i >= 3 then (false, held)
    else
      var reply := if i < |updates| then updates[i] else NotStored;
      match reply
      case Stored => (true, Updated(held, packed))
      case NotStored => Retry(held, packed, updates, i + 1)
      case StoredUnseen => Retry(Updated(held, packed), packed, updates, i + 1)
  }

  function Save(m: Machine, d: Disk, s: Snapshot, flush: Flush, updates: seq<Reply>): (bool, Snapshot) {
    var packed := Pack(m, d, flush);
    if packed.None? then (false, s) else Retry(s, packed.value, updates, 0)
  }

  /** cleanupResources, the directory being still there and the machine listed or not. */
  function Cleanup(w: World, listed: bool, lsOk: bool, rmOk: bool): World {
    if !lsOk || !listed then w
    else World(w.cloud && !rmOk, w.snapshot, w.local, w.log + [RunRm])
  }

  /** `docker-machine create` refuses a name that its store already has. */
  function RunOf(m: Machine, w: World, d: Disk, run: CreateRun): CreateRun {
    if Listed(m, d) then CreateRun(false, d, w.cloud) else run
  }

  /** CreateMachine from the start of `docker-machine create` on, in directory d. */
  function AfterStart(m: Machine, w: World, d: Disk, c: CreateCalls): World {
    var run := RunOf(m, w, d, c.run);
    var w1 := World(run.cloud, w.snapshot, None, w.log + [RunCreate]);
    if !run.ok then Cleanup(w1, Listed(m, run.disk), c.lsOk, c.rmOk)
    else
      var stamped := DirToSave(m, run.disk, c.stampWritten);
      var (saved, s) := Save(m, stamped, w.snapshot, c.flush, c.updates);
      var w2 := w1.(snapshot := s);
      if saved then w2 else Cleanup(w2, Listed(m, stamped), c.lsOk, c.rmOk)
  }

  /** The directory that a successful create saves: an error of the stamp is ignored. */
  function DirToSave(m: Machine, d: Disk, stampWritten: bool): Disk {
    var touched := Touch(d, CreatedStamp(m));
    if stampWritten && touched.Some? then touched.value else d
  }

  /** CreateMachine. */
  function AfterCreate(m: Machine, w: World, c: CreateCalls): World
    requires Valid(m)
  {
    var loaded := Load(m, w.snapshot);
    if !c.entered || loaded.None? then w.(local := c.leftover) else AfterEntry(m, w, loaded.value, c)
  }

  /** CreateMachine once preEvent has restored directory d. A stamp that cannot be looked
      for is taken to be there. */
  function AfterEntry(m: Machine, w: World, d: Disk, c: CreateCalls): World {
    if CreatedStamp(m) in d || !c.statOk then w.(local := None)
    else if !c.handled || !c.started then Cleanup(w, Listed(m, d), c.lsOk, c.rmOk).(local := None)
    else AfterStart(m, w, d, c)
  }

  /** The directory that ActivateMachine saves, if it gets that far. A stamp that cannot be
      looked for is taken to be missing. */
  function DirAfterBootstrap(m: Machine, d: Disk, b: BootstrapCalls): Option<Disk> {
    if b.statOk && BootstrappedStamp(m) in d then Some(d)
    else if b.agentRuns && b.stampWritten then Touch(d, BootstrappedStamp(m))
    else None
  }

  /** ActivateMachine, as far as the directory and the snapshot go. */
  function AfterBootstrap(m: Machine, w: World, b: BootstrapCalls): World
    requires Valid(m)
  {
    var loaded := Load(m, w.snapshot);
    if !b.entered || loaded.None? then w.(local := b.leftover)
    else
      var d := DirAfterBootstrap(m, loaded.value, b);
      if d.None? then w.(local := None)
      else w.(snapshot := Save(m, d.value, w.snapshot, b.flush, b.updates).1, local := None)
  }

  /** PurgeMachine past its cache. */
  function AfterPurge(m: Machine, w: World, p: PurgeCalls): (World, PurgeEnd)
    requires Valid(m)
  {
    var loaded := Load(m, w.snapshot);
    if !p.known then (w, NoMachine)
    else if !p.entered || loaded.None? then (w.(local := p.leftover), PurgeFailed)
    else if !p.lsOk then (w.(local := None), PurgeFailed)
    else if !Listed(m, loaded.value) then (w.(local := None), Purged)
    else (World(w.cloud && !p.rmOk, w.snapshot, None, w.log + [RunRm]), if p.rmOk then Purged else PurgeFailed)
  }

  function After(m: Machine, w: World, e: Event): World
    requires Valid(m)
  {
    match e
    case Create(c) => AfterCreate(m, w, c)
    case Bootstrap(b) => AfterBootstrap(m, w, b)
    case Purge(p) => AfterPurge(m, w, p).0
  }

  function Run(m: Machine, w: World, events: seq<Event>): World
    requires Valid(m)
  {
    if events == [] then w else After(m, Run(m, w, events[..|events| - 1]), events[|events| - 1])
  }
}
