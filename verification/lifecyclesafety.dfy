/** What single events keep, over the life of a host. */
module LifecycleSafety {
  import opened Options
  import opened Text
  import opened UnixPath
  import opened DiskWrites
  import opened ArchiveNames
  import opened MachineArchive
  import opened MachineSave
  import opened RoundTrip
  import opened Lifecycle

  // ----- what a restored directory looks like

  lemma PartsArePortable(name: string, s: string)
    requires Portable(name) && s in Split(name, '/')
    ensures Portable(s)
  {
    JoinSplit(name, '/');
    JoinContains(Split(name, '/'), '/', "..");
    JoinContains(Split(name, '/'), '/', "\\");
  }

  /** The path an entry is accepted for has portable segments, and so has the root. */
  lemma AcceptedIsPortable(root: string, e: Entry)
    requires Proper(root) && Read(root, e).Wants?
    ensures Portable(root) && forall s :: s in Read(root, e).write.path ==> Proper(s) && Portable(s)
  {
    JudgeMeaning(root, e.name);
    WantedIsUsable(root, e);
    var segs := Named(Split(e.name, '/'));
    forall s | s in segs ensures Portable(s) {
      NamedMembers(Split(e.name, '/'), s);
      PartsArePortable(e.name, s);
    }
    assert segs[0] == root;
  }

  lemma LoadShows(m: Machine, es: seq<Entry>, intact: bool)
    requires Valid(m) && Restorable(m.root, es, intact)
    ensures Shows(Writes(m.root, es), Load(m, Stream(es, intact)).value)
  {
    ReplaySucceeds(Writes(m.root, es), NoFaults());
  }

  /** What one write needs as a directory, no write puts as a file. */
  lemma NeverPut(ws: seq<Write>, q: Path, j: nat)
    requires ConflictFree(ws) && j < |ws| && NeedsDir(ws[j], q)
    ensures forall l: nat :: !LastPut(ws, q, l)
  {
  }

  lemma LoadedPath(m: Machine, es: seq<Entry>, intact: bool, p: Path)
    requires Valid(m) && Restorable(m.root, es, intact) && p in Load(m, Stream(es, intact)).value
    ensures p != [] && Portable(m.root) && forall s :: s in p ==> Proper(s) && Portable(s)
  {
    var ws, d := Writes(m.root, es), Load(m, Stream(es, intact)).value;
    LoadShows(m, es, intact);
    hide Writes, Read, Load, Proper, Portable, Restorable;
    var j: nat :| First(ws, p, j);
    WritesStayBelow(m.root, es, ws[j]);
    var e :| e in es && Read(m.root, e) == Wants(ws[j]);
    AcceptedIsPortable(m.root, e);
    assert p == ws[j].path[..|p|];
  }

  lemma ShownAbove(ws: seq<Write>, d: Disk, p: Path, i: nat)
    requires Shows(ws, d) && ConflictFree(ws) && p in d && 0 < i < |p|
    ensures p[..i] in d && d[p[..i]].Dir?
  {
    var j: nat :| First(ws, p, j);
    assert Reaches(ws[j], p[..i]) && NeedsDir(ws[j], p[..i]);
    FirstExists(ws, p[..i], j);
    var k: nat :| First(ws, p[..i], k);
    NeverPut(ws, p[..i], j);
  }

  lemma LoadedNode(m: Machine, es: seq<Entry>, intact: bool, p: Path)
    requires Valid(m) && Restorable(m.root, es, intact) && p in Load(m, Stream(es, intact)).value
    ensures p != [] && Portable(m.root) && forall s :: s in p ==> Proper(s) && Portable(s)
    ensures var d := Load(m, Stream(es, intact)).value;
            && (d[p].File? || d[p].Dir?)
            && forall i :: 0 < i < |p| ==> p[..i] in d && d[p[..i]].Dir?
  {
    var ws, d := Writes(m.root, es), Load(m, Stream(es, intact)).value;
    LoadShows(m, es, intact);
    LoadedPath(m, es, intact, p);
    hide Writes, Load, Proper, Portable;
    var j: nat :| First(ws, p, j);
    forall i | 0 < i < |p| ensures p[..i] in d && d[p[..i]].Dir? { ShownAbove(ws, d, p, i); }
  }

  ghost predicate PortableTree(d: Disk) { forall p :: p in d ==> forall s :: s in p ==> Portable(s) }

  lemma LoadedIsTree(m: Machine, s: Snapshot)
    requires Valid(m) && Load(m, s).Some?
    ensures var d := Load(m, s).value;
            && WellFormed(d) && PortableTree(d) && Archivable(d)
            && (d != map[] ==> Portable(m.root))
  {
    if s.Stream? {
      var d := Load(m, s).value;
      forall p | p in d
        ensures p != [] && AllProper(p) && Portable(m.root) && (d[p].File? || d[p].Dir?)
        ensures forall x :: x in p ==> Portable(x)
        ensures forall i :: 0 < i < |p| ==> p[..i] in d && d[p[..i]].Dir?
      {
        LoadedNode(m, s.entries, s.intact, p);
      }
    }
  }

  // ----- the stamp survives a save

  lemma TouchKeepsTree(d: Disk, p: Path)
    requires WellFormed(d) && p != [] && AllProper(p) && Touch(d, p).Some?
    ensures var e := Touch(d, p).value;
            WellFormed(e) && e.Keys == d.Keys + {p} && e[p].File? && forall q :: q in d && q != p ==> e[q] == d[q]
  {
    var e := Touch(d, p).value;
    forall q | q in e ensures q != [] && AllProper(q) && forall i :: 0 < i < |q| ==> q[..i] in e && e[q[..i]].Dir? {
      forall i | 0 < i < |q| ensures q[..i] in e && e[q[..i]].Dir? {
        if q in d {
          assert q[..i] in d && d[q[..i]].Dir?;
        } else {
          assert q == p && Parent(p) in d;
          if i < |p| - 1 { assert Parent(p)[..i] == p[..i]; }
        }
      }
    }
  }

  lemma TarballIsPassedOver(m: Machine)
    requires Valid(m)
    ensures Skipped(m.name + ".tar.gz") && Proper(m.name + ".tar.gz")
  {
  }

  /** The tarball itself is not in the archive and does not change what is. */
  lemma WithTarball(m: Machine, d: Disk)
    requires Valid(m) && WellFormed(d) && Touch(d, TarballPath(m)).Some?
    ensures var e := Touch(d, TarballPath(m)).value;
            && WellFormed(e) && ArchivedPaths(e) == ArchivedPaths(d)
            && e.Keys == d.Keys + {TarballPath(m)} && e[TarballPath(m)].File? && !Archived(TarballPath(m))
            && forall p :: p in ArchivedPaths(d) ==> e[p] == d[p]
  {
    var tarball := TarballPath(m);
    TarballIsPassedOver(m);
    assert tarball[0] in tarball && Last(tarball) == m.name + ".tar.gz";
    TouchKeepsTree(d, tarball);
  }

  lemma LoadOfWhole(m: Machine, e: Disk)
    requires Valid(m) && WellFormed(e) && Archivable(e) && ArchivedPaths(e) != {} && NamesPortable(m.root, e)
    ensures Load(m, Stream(ArchiveOf(m.root, e), true)) == Some(FilteredTree(e))
  {
    var es := ArchiveOf(m.root, e);
    SavedIsRestorable(m.root, e);
    LoadShows(m, es, true);
    OnlyTheFilteredTree(m.root, e, Load(m, Stream(es, true)).value);
  }

  /** The archive file that a save leaves, unless it is empty, can be restored exactly when
      all of it was written and the archived names are portable. Then an archived path
      comes back exactly when it was there, and the tarball does not. */
  lemma PackThenLoad(m: Machine, d: Disk, flush: Flush)
    requires Valid(m) && WellFormed(d) && Pack(m, d, flush).Some? && ArchivedPaths(d) != {}
    ensures Pack(m, d, flush).value.Absent? <==> flush.Nothing?
    ensures !flush.Nothing? ==> (Load(m, Pack(m, d, flush).value).Some? <==> flush.Whole? && NamesPortable(m.root, d))
    ensures flush.Whole? && NamesPortable(m.root, d) ==>
              var d' := Load(m, Pack(m, d, flush).value).value;
              TarballPath(m) !in d' && forall p :: Archived(p) ==> (p in d' <==> p in d)
  {
    WithTarball(m, d);
    var tarball := TarballPath(m);
    var e := Touch(d, tarball).value;
    assert NamesPortable(m.root, e) == NamesPortable(m.root, d);
    hide WellFormed, TarballPath, Archived, Touch, FilteredTree, Archivable, NamesPortable;
    SavedIsRestorable(m.root, e);
    if flush.Whole? && NamesPortable(m.root, d) {
      LoadOfWhole(m, e);
      forall p ensures Archived(p) ==> (p in FilteredTree(e) <==> p in d) { FilteredTreeMeaning(e, p); }
      FilteredTreeMeaning(e, tarball);
    }
  }

  /** Then every archived file and directory is back, with its data and permissions. */
  lemma PackKeepsContents(m: Machine, d: Disk, p: Path)
    requires Valid(m) && WellFormed(d) && Pack(m, d, Whole).Some? && NamesPortable(m.root, d)
    requires p in ArchivedPaths(d)
    ensures var s := Pack(m, d, Whole).value;
            Load(m, s).Some? && p in Load(m, s).value && ComesBackAs(d[p], Load(m, s).value[p])
  {
    WithTarball(m, d);
    var e := Touch(d, TarballPath(m)).value;
    assert NamesPortable(m.root, e) == NamesPortable(m.root, d);
    assert ArchivedPaths(e) != {} && Archivable(e);
    hide WellFormed, TarballPath, Touch, Archivable, NamesPortable, ComesBackAs;
    LoadOfWhole(m, e);
    FilteredTreeMeaning(e, p);
    NodesComeBack(e, p);
  }

  // ----- agreement of the provider and the snapshot

  /** The host exists exactly when the snapshot restores to a directory with its stamp. */
  ghost predicate Agree(m: Machine, w: World)
    requires Valid(m)
  {
    w.cloud <==> Stamped(m, w.snapshot)
  }

  /** The contract of `docker-machine create`: it leaves a directory tree; a host that
      it created is in its store, and it reports success only if there is one. Its own
      files have portable names. */
  ghost predicate Plausible(m: Machine, run: CreateRun) {
    && WellFormed(run.disk)
    && (run.ok ==> run.cloud)
    && (run.cloud ==> Listed(m, run.disk))
    && CreatedStamp(m) !in run.disk
    && forall p :: p in run.disk ==> forall s :: s in p && s != m.name ==> Portable(s)
  }

  /** The assumptions on one create event: cleanup works, the stamp and the whole archive
      are written, and an update that reports an error had no effect. */
  ghost predicate Honest(m: Machine, c: CreateCalls) {
    && Plausible(m, c.run)
    && c.lsOk && c.rmOk && c.stampWritten && c.flush.Whole?
    && StoredUnseen !in c.updates
  }

  /** One of the at most three answers from the i-th on is this one. */
  predicate Answered(updates: seq<Reply>, i: nat, reply: Reply) {
    exists k :: i <= k < 3 && k < |updates| && updates[k] == reply
  }

  /** One of the three updates was stored, seen or unseen. */
  predicate IsStored(updates: seq<Reply>) {
    Answered(updates, 0, Stored) || Answered(updates, 0, StoredUnseen)
  }

  /** The retry loop: it succeeds exactly if one of three updates is answered as stored,
      and the snapshot is the updated one exactly if one was stored, seen or unseen. */
  lemma {:induction false} RetryOutcome(held: Snapshot, packed: Snapshot, updates: seq<Reply>, i: nat)
    ensures Retry(held, packed, updates, i) ==
            (Answered(updates, i, Stored),
             if Answered(updates, i, Stored) || Answered(updates, i, StoredUnseen) then Updated(held, packed) else held)
    decreases 3 - i
  {
    if i < 3 {
      RetryOutcome(held, packed, updates, i + 1);
      RetryOutcome(Updated(held, packed), packed, updates, i + 1);
      AnsweredNext(updates, i, Stored);
      AnsweredNext(updates, i, StoredUnseen);
    }
  }

  lemma AnsweredNext(updates: seq<Reply>, i: nat, reply: Reply)
    requires i < 3
    ensures Answered(updates, i, reply) <==> (i < |updates| && updates[i] == reply) || Answered(updates, i + 1, reply)
  {
  }

  lemma UndottedIsArchived(p: Path)
    requires p != [] && '.' !in Last(p)
    ensures Archived(p)
  {
    var s := Last(p);
    NoDotNoSuffix(s, ".iso");
    NoDotNoSuffix(s, ".tar.gz");
    NoDotNoSuffix(s, ".vmdk");
    NoDotNoSuffix(s, ".img");
  }

  lemma NoDotNoSuffix(s: string, suffix: string)
    requires '.' !in s && suffix != "" && suffix[0] == '.'
    ensures !HasSuffix(s, suffix)
  {
    assert |suffix| <= |s| ==> s[|s| - |suffix|..][0] in s;
  }

  lemma HostDirIsStampParent(m: Machine)
    ensures Parent(CreatedStamp(m)) == HostDir(m) == Parent(BootstrappedStamp(m))
    ensures Archived(CreatedStamp(m)) && Archived(BootstrappedStamp(m))
    ensures Valid(m) ==> AllProper(CreatedStamp(m)) && AllProper(BootstrappedStamp(m))
  {
    hide Archived;
    UndottedIsArchived(CreatedStamp(m));
    UndottedIsArchived(BootstrappedStamp(m));
  }

  lemma PlainIsPortable(s: string)
    requires '.' !in s && '\\' !in s
    ensures Portable(s)
  {
    forall i | 0 <= i <= |s| ensures !(".." <= s[i..]) && !("\\" <= s[i..]) {
      assert |s[i..]| > 0 ==> s[i..][0] in s;
    }
  }

  /** A stamp can be touched wherever its host directory is, unless something else is
      there. */
  lemma StampIsShort(m: Machine)
    ensures ByteLen(Last(CreatedStamp(m))) <= NAME_MAX && ByteLen(Last(BootstrappedStamp(m))) <= NAME_MAX
  {
    assert ByteLen("created") <= 28 && ByteLen("bootstrapped") <= 48;
  }

  predicate PortableMachine(m: Machine) { Portable(m.root) && Portable(m.name) }

  lemma MachinesIsArchived(m: Machine, d: Disk)
    requires WellFormed(d) && Listed(m, d)
    ensures ["machines"] in ArchivedPaths(d)
  {
    assert HostDir(m)[..1] == ["machines"] && Last(["machines"]) == "machines";
  }

  /** A stamp that is not there can be touched where the machine is listed. */
  lemma TouchesStamp(m: Machine, d: Disk, p: Path)
    requires Listed(m, d) && (p == CreatedStamp(m) || p == BootstrappedStamp(m)) && p !in d
    ensures Touch(d, p).Some?
  {
    HostDirIsStampParent(m);
    StampIsShort(m);
    hide ByteLen, Archived;
  }

  lemma CreatedTree(m: Machine, run: CreateRun)
    requires Valid(m) && Plausible(m, run) && Listed(m, run.disk)
    ensures var t := Touch(run.disk, CreatedStamp(m));
            && t.Some? && WellFormed(t.value) && Listed(m, t.value)
            && t.value.Keys == run.disk.Keys + {CreatedStamp(m)}
    ensures ["machines"] in ArchivedPaths(run.disk)
  {
    HostDirIsStampParent(m);
    MachinesIsArchived(m, run.disk);
    TouchesStamp(m, run.disk, CreatedStamp(m));
    assert |HostDir(m)| != |CreatedStamp(m)|;
    hide ByteLen, Archived, Touch, WellFormed, Proper;
    TouchKeepsTree(run.disk, CreatedStamp(m));
  }

  lemma StampNamesArePortable()
    ensures Portable("machines") && Portable("created") && Portable("bootstrapped")
  {
    PlainIsPortable("machines");
    PlainIsPortable("created");
    PlainIsPortable("bootstrapped");
  }

  lemma StampIsPortable(m: Machine)
    ensures m.name in CreatedStamp(m) && forall s :: s in CreatedStamp(m) && s != m.name ==> Portable(s)
    ensures Archived(CreatedStamp(m))
  {
    HostDirIsStampParent(m);
    hide Archived, Portable;
    var p := CreatedStamp(m);
    StampNamesArePortable();
    assert p[1] in p && forall s :: s in p ==> s == "machines" || s == m.name || s == "created";
  }

  /** The archive of the directory after a successful create and the stamp is usable
      exactly when the machine's names are portable. */
  lemma CreatedTreeIsPortable(m: Machine, run: CreateRun, d: Disk)
    requires Plausible(m, run) && d.Keys == run.disk.Keys + {CreatedStamp(m)}
    ensures NamesPortable(m.root, d) <==> PortableMachine(m)
    ensures PortableMachine(m) ==> NamesPortable(m.root, run.disk)
  {
    hide Portable, CreatedStamp, Archived, WellFormed, Listed;
    StampIsPortable(m);
    assert CreatedStamp(m) in ArchivedPaths(d);
  }

  /** When a directory can be packed: the machine's name leaves room for the tarball's,
      the tarball can be opened, and no archived node is a link or special file. */
  predicate CanPack(m: Machine, d: Disk) {
    ByteLen(m.name) <= 248 && (TarballPath(m) in d ==> d[TarballPath(m)].File?) && Archivable(d)
  }

  lemma TarballLength(m: Machine)
    ensures ByteLen(m.name + ".tar.gz") == ByteLen(m.name) + 7
  {
    ByteLenConcat(m.name, ".tar.gz");
    AsciiLen(".tar.gz");
  }

  lemma PackExactly(m: Machine, d: Disk, flush: Flush)
    requires Valid(m)
    ensures Pack(m, d, flush).Some? <==> CanPack(m, d)
  {
    TarballIsPassedOver(m);
    TarballLength(m);
    var tarball := TarballPath(m);
    assert Last(tarball) == m.name + ".tar.gz";
    if Touch(d, tarball).Some? {
      var e := Touch(d, tarball).value;
      assert ArchivedPaths(e) == ArchivedPaths(d);
      assert forall p :: p in ArchivedPaths(d) ==> e[p] == d[p];
    }
  }

  lemma FileKeepsArchivable(d: Disk, e: Disk, p: Path)
    requires p !in d && e.Keys == d.Keys + {p} && e[p].File? && forall q :: q in d ==> e[q] == d[q]
    ensures Archivable(e) <==> Archivable(d)
  {
    hide Archived;
    assert forall q :: q in ArchivedPaths(d) ==> q in ArchivedPaths(e);
    assert forall q :: q in ArchivedPaths(e) ==> q == p || q in ArchivedPaths(d);
  }

  lemma TouchedCanPack(m: Machine, d: Disk, p: Path)
    requires Valid(m) && WellFormed(d) && |p| == 3 && AllProper(p) && p !in d && Touch(d, p).Some?
    ensures CanPack(m, Touch(d, p).value) <==> CanPack(m, d)
  {
    assert |TarballPath(m)| == 1;
    hide TarballPath, ByteLen, Archivable, Archived, Touch;
    TouchKeepsTree(d, p);
    FileKeepsArchivable(d, Touch(d, p).value, p);
  }

  /** The stamp does not change whether the directory can be packed. */
  lemma StampedCanPack(m: Machine, run: CreateRun, stampWritten: bool)
    requires Valid(m) && Plausible(m, run) && run.ok
    ensures CanPack(m, DirToSave(m, run.disk, stampWritten)) <==> CanPack(m, run.disk)
  {
    HostDirIsStampParent(m);
    assert |CreatedStamp(m)| == 3;
    CreatedTree(m, run);
    hide CanPack, Touch, CreatedStamp;
    TouchedCanPack(m, run.disk, CreatedStamp(m));
  }

  /** A save replaces the snapshot: the directory can be packed, the file has a text, and
      an update was stored. */
  predicate Replaces(m: Machine, d: Disk, flush: Flush, updates: seq<Reply>) {
    CanPack(m, d) && !flush.Nothing? && IsStored(updates)
  }

  /** How a save ends. What it puts in place of the snapshot loads exactly if all of it was
      written and the names are portable, and then has the same archived paths. */
  lemma SaveOutcome(m: Machine, d: Disk, s: Snapshot, flush: Flush, updates: seq<Reply>)
    requires Valid(m) && WellFormed(d) && ArchivedPaths(d) != {}
    ensures var (saved, s') := Save(m, d, s, flush, updates);
            && (saved <==> CanPack(m, d) && Answered(updates, 0, Stored))
            && (!Replaces(m, d, flush, updates) ==> s' == s)
            && (Replaces(m, d, flush, updates) ==>
                  && (Load(m, s').Some? <==> flush.Whole? && NamesPortable(m.root, d))
                  && (Load(m, s').Some? ==>
                        var d' := Load(m, s').value;
                        TarballPath(m) !in d' && forall p :: Archived(p) ==> (p in d' <==> p in d)))
  {
    PackExactly(m, d, flush);
    if CanPack(m, d) {
      PackThenLoad(m, d, flush);
      hide Pack, CanPack, Load, Archived, NamesPortable, WellFormed;
      RetryOutcome(s, Pack(m, d, flush).value, updates, 0);
    }
  }

  /** What a save has put in place of the snapshot restores every archived file. */
  lemma SaveKeepsContents(m: Machine, d: Disk, s: Snapshot, flush: Flush, updates: seq<Reply>, p: Path)
    requires Valid(m) && WellFormed(d) && p in ArchivedPaths(d) && NamesPortable(m.root, d)
    requires Replaces(m, d, flush, updates) && flush.Whole?
    ensures var d' := Load(m, Save(m, d, s, flush, updates).1);
            d'.Some? && p in d'.value && ComesBackAs(d[p], d'.value[p])
  {
    PackExactly(m, d, flush);
    PackKeepsContents(m, d, p);
    hide Pack, CanPack, Load, Archived, NamesPortable, WellFormed, ComesBackAs;
    RetryOutcome(s, Pack(m, d, flush).value, updates, 0);
  }

  /** How the save of a successful create ends: what it puts in place of the snapshot has
      the stamp exactly if that and the whole archive were written and the names are
      portable. */
  lemma SaveOfCreate(m: Machine, c: CreateCalls, s: Snapshot)
    requires Valid(m) && Plausible(m, c.run) && c.run.ok
    ensures var d := DirToSave(m, c.run.disk, c.stampWritten);
            var (saved, s') := Save(m, d, s, c.flush, c.updates);
            var replaced := Replaces(m, c.run.disk, c.flush, c.updates);
            && Listed(m, d)
            && (saved <==> CanPack(m, c.run.disk) && Answered(c.updates, 0, Stored))
            && (replaced ==> (Stamped(m, s') <==> c.flush.Whole? && c.stampWritten && PortableMachine(m)))
            && (replaced && c.stampWritten ==> (Load(m, s').Some? <==> c.flush.Whole? && PortableMachine(m)))
            && (replaced && Stamped(m, s') ==> TarballPath(m) !in Load(m, s').value)
            && (!replaced ==> s' == s)
  {
    HostDirIsStampParent(m);
    CreatedTree(m, c.run);
    StampedCanPack(m, c.run, c.stampWritten);
    var d := DirToSave(m, c.run.disk, c.stampWritten);
    assert ["machines"] in ArchivedPaths(d);
    CreatedTreeIsPortable(m, c.run, Touch(c.run.disk, CreatedStamp(m)).value);
    hide CanPack, Load, Archived, Touch, Save, NamesPortable, PortableMachine, IsStored;
    SaveOutcome(m, d, s, c.flush, c.updates);
  }

  /** The event gets as far as running `docker-machine create`. */
  predicate RunsCreate(m: Machine, w: World, c: CreateCalls)
    requires Valid(m)
  {
    var loaded := Load(m, w.snapshot);
    && c.entered && loaded.Some? && c.statOk && CreatedStamp(m) !in loaded.value
    && c.handled && c.started && !Listed(m, loaded.value)
  }

  /** When a create event keeps provider and snapshot in step. A failed create needs a
      working cleanup. A saved one needs the stamp, the whole archive and portable names.
      When the save failed, the cleanup must have worked, unless a usable archive was
      stored although every update reported an error; then it must not have. */
  predicate KeepsInStep(m: Machine, w: World, c: CreateCalls)
    requires Valid(m)
  {
    RunsCreate(m, w, c) ==>
      if !c.run.ok then c.run.cloud ==> c.lsOk && c.rmOk
      else
        var packs, usable := CanPack(m, c.run.disk), c.flush.Whole? && c.stampWritten && PortableMachine(m);
        if packs && Answered(c.updates, 0, Stored) then usable
        else packs && Answered(c.updates, 0, StoredUnseen) && usable <==> !(c.lsOk && c.rmOk)
  }

  lemma CreateAgreesExactly(m: Machine, w: World, c: CreateCalls)
    requires Valid(m) && Plausible(m, c.run) && Agree(m, w)
    ensures Agree(m, AfterCreate(m, w, c)) <==> KeepsInStep(m, w, c)
  {
    hide ByteLen, Touch, Retry, Pack, Archivable, WellFormed, Proper;
    var loaded := Load(m, w.snapshot);
    if RunsCreate(m, w, c) && c.run.ok {
      SaveOfCreate(m, c, w.snapshot);
      hide Save, CanPack, PortableMachine, Load, Answered, DirToSave, Plausible;
    }
  }

  /** Every return of CreateMachine after preEvent leaves no directory. */
  lemma NoDirectoryLeft(m: Machine, w: World, d: Disk, c: CreateCalls)
    ensures AfterEntry(m, w, d, c).local == None
  {
  }

  /** Safety of one event, under the stated assumptions. */
  lemma CreateKeepsAgreement(m: Machine, w: World, c: CreateCalls)
    requires Valid(m) && PortableMachine(m) && Honest(m, c) && Agree(m, w)
    ensures Agree(m, AfterCreate(m, w, c))
  {
    CreateAgreesExactly(m, w, c);
    hide Agree, Plausible, RunsCreate, PortableMachine, CanPack;
    assert !Answered(c.updates, 0, StoredUnseen);
  }

  /** Once a usable snapshot has the stamp, create events change nothing and run nothing. */
  lemma StampedIsNotRecreated(m: Machine, w: World, c: CreateCalls)
    requires Valid(m) && Stamped(m, w.snapshot)
    ensures var w' := AfterCreate(m, w, c); w'.cloud == w.cloud && w'.snapshot == w.snapshot && w'.log == w.log
  {
  }

  lemma PortableFromAbove(d: Disk, p: Path)
    requires PortableTree(d) && |p| == 3 && (p in d || Parent(p) in d) && Portable(p[2])
    ensures d != map[] && forall x :: x in p ==> Portable(x)
  {
    hide Portable;
    var above := if p in d then p else Parent(p);
    assert above in d && above[0] == p[0] && above[1] == p[1];
    forall i | 0 <= i < 3 ensures Portable(p[i]) {
      assert i < 2 ==> p[i] in above;
    }
  }

  lemma BootstrapStampIsPortable(m: Machine, d: Disk)
    requires PortableTree(d) && Touch(d, BootstrappedStamp(m)).Some?
    ensures d != map[] && forall x :: x in BootstrappedStamp(m) ==> Portable(x)
  {
    StampNamesArePortable();
    hide ByteLen, Portable, PortableTree;
    PortableFromAbove(d, BootstrappedStamp(m));
  }

  /** The restored directory with the bootstrap stamp can be saved. */
  lemma BootstrappedTree(m: Machine, d: Disk)
    requires Valid(m) && WellFormed(d) && PortableTree(d) && (d != map[] ==> Portable(m.root))
    requires Touch(d, BootstrappedStamp(m)).Some?
    ensures var t := Touch(d, BootstrappedStamp(m)).value;
            && WellFormed(t) && t.Keys == d.Keys + {BootstrappedStamp(m)}
            && NamesPortable(m.root, t) && BootstrappedStamp(m) in ArchivedPaths(t)
  {
    HostDirIsStampParent(m);
    hide ByteLen, Archived, Portable, WellFormed;
    TouchKeepsTree(d, BootstrappedStamp(m));
    BootstrapStampIsPortable(m, d);
  }

  lemma DirAfterBootstrapIsTree(m: Machine, s: Snapshot, b: BootstrapCalls)
    requires Valid(m) && Load(m, s).Some? && DirAfterBootstrap(m, Load(m, s).value, b).Some?
    ensures var d, d' := Load(m, s).value, DirAfterBootstrap(m, Load(m, s).value, b).value;
            && WellFormed(d') && NamesPortable(m.root, d') && ArchivedPaths(d') != {}
            && (CreatedStamp(m) in d' <==> CreatedStamp(m) in d) && BootstrappedStamp(m) in d'
  {
    HostDirIsStampParent(m);
    var d, p := Load(m, s).value, BootstrappedStamp(m);
    LoadedIsTree(m, s);
    assert CreatedStamp(m)[2] != p[2] && Archived(p);
    hide Load, ByteLen, Archived, Proper, Portable, CreatedStamp, BootstrappedStamp;
    if !(b.statOk && p in d) {
      BootstrappedTree(m, d);
    }
    assert p in ArchivedPaths(DirAfterBootstrap(m, d, b).value);
  }

  /** A bootstrap event spoils a stamped snapshot: it stores an archive that was cut short. */
  predicate Spoils(m: Machine, w: World, b: BootstrapCalls)
    requires Valid(m)
  {
    && b.entered && Stamped(m, w.snapshot) && !b.flush.Whole?
    && var d := DirAfterBootstrap(m, Load(m, w.snapshot).value, b);
       d.Some? && Replaces(m, d.value, b.flush, b.updates)
  }

  /** The save of a bootstrap event. */
  lemma SaveOfBootstrap(m: Machine, s: Snapshot, b: BootstrapCalls)
    requires Valid(m) && Load(m, s).Some? && DirAfterBootstrap(m, Load(m, s).value, b).Some?
    ensures var d := DirAfterBootstrap(m, Load(m, s).value, b).value;
            var s' := Save(m, d, s, b.flush, b.updates).1;
            && (!Replaces(m, d, b.flush, b.updates) ==> s' == s)
            && (Replaces(m, d, b.flush, b.updates) ==>
                  && (Load(m, s').Some? <==> b.flush.Whole?)
                  && (Load(m, s').Some? ==>
                        && (Stamped(m, s') <==> Stamped(m, s)) && BootstrappedStamp(m) in Load(m, s').value
                        && TarballPath(m) !in Load(m, s').value))
  {
    HostDirIsStampParent(m);
    DirAfterBootstrapIsTree(m, s, b);
    var d := DirAfterBootstrap(m, Load(m, s).value, b).value;
    hide Load, Save, Archived, NamesPortable, WellFormed, CreatedStamp, BootstrappedStamp, Replaces, Touch;
    SaveOutcome(m, d, s, b.flush, b.updates);
  }

  /** A bootstrap event keeps the created stamp of the snapshot unless it spoils it, and
      never adds one; a spoilt snapshot does not restore. */
  lemma BootstrapKeepsStamp(m: Machine, w: World, b: BootstrapCalls)
    requires Valid(m)
    ensures var w' := AfterBootstrap(m, w, b);
            && (Stamped(m, w'.snapshot) <==> Stamped(m, w.snapshot) && !Spoils(m, w, b))
            && (Spoils(m, w, b) ==> Load(m, w'.snapshot).None?)
            && w'.cloud == w.cloud && w'.log == w.log
  {
    hide Load, Save, DirAfterBootstrap, Replaces;
    var loaded := Load(m, w.snapshot);
    if loaded.Some? {
      var d := DirAfterBootstrap(m, loaded.value, b);
      if d.Some? {
        SaveOfBootstrap(m, w.snapshot, b);
      }
    }
  }
}
