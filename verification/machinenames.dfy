/** From the control plane's record of a machine to the names its files get, and the
    machines whose names pass every check and yet cannot be restored
    (handlers/common.go, handlers/create.go). */
module MachineNames {
  import opened Options
  import opened Text
  import opened UnixPath
  import opened DiskWrites
  import opened ArchiveNames
  import opened MachineSave
  import opened StoragePaths
  import opened Lifecycle
  import opened LifecycleSafety
  import opened LifecycleRuns

  /** What preEvent makes of a record: the directory by the identifier, the machine by its
      command name; nothing if a check refuses it. */
  function MachineOf(name: string, externalID: string, id: string, digest: string -> string): Option<Machine> {
    var command, dir := CommandName(name, externalID, id), DirectoryIdentifier(externalID, id, digest);
    if command.Invalid? || dir.Invalid? then None else Some(Machine(dir.s, command.s))
  }

  lemma NoBackslash(s: string)
    requires !ContainsAny(s, "/\\")
    ensures '\\' !in s && !Contains(s, "\\")
  {
    assert '\\' in "/\\";
    forall i | 0 <= i <= |s| ensures !("\\" <= s[i..]) {
      assert |s[i..]| > 0 ==> s[i..][0] == s[i];
    }
  }

  /** The names are ones that a directory can hold, as the lifecycle takes them to be, and
      free of backslashes: they are portable exactly if they have no "..". */
  lemma AcceptedMachine(name: string, externalID: string, id: string, digest: string -> string)
    requires HexDigest(digest) && MachineOf(name, externalID, id, digest).Some?
    ensures var m := MachineOf(name, externalID, id, digest).value;
            Valid(m) && (PortableMachine(m) <==> !Contains(m.root, "..") && !Contains(m.name, ".."))
  {
    var m, key := MachineOf(name, externalID, id, digest).value, if externalID == "" then id else externalID;
    CommandNameIsStable(name, externalID, id);
    IdentifierIsStable(key, digest);
    LegacyIsSegment(digest(key));
    NoBackslash(m.name);
    NoBackslash(m.root);
  }

  /** What a record becomes: the directory after the external identifier, or the other one,
      and the machine after its name, or else the same. */
  lemma MachineOfExactly(name: string, externalID: string, id: string, digest: string -> string)
    ensures var key := if externalID != "" then externalID else id;
            var n := if name != "" then name else key;
            MachineOf(name, externalID, id, digest) ==
            if key == "" || '\0' in key || !UsableName(n) || n[0] == '-' then None
            else Some(Machine(if UsableName(key) then key else "legacy-" + digest(key), n))
  {
    IdentifierExactly(if externalID != "" then externalID else id, digest);
    CommandNameExactly(name, externalID, id);
    hide UsableName, CommandName, PathIdentifier;
  }

  /** The checks accept "a..b" as a name and as an identifier. */
  lemma DottedNamePasses(digest: string -> string, id: string)
    ensures MachineOf("a..b", "a..b", id, digest) == Some(Machine("a..b", "a..b"))
    ensures Proper("a..b") && !Portable("a..b")
  {
    var s := "a..b";
    assert s[1..] == "..b" && ".." <= s[1..];
    AsciiLen(s);
    assert forall i :: 0 <= i < |s| ==> s[i] == 'a' || s[i] == '.' || s[i] == 'b';
    PlainNamePasses(s, digest, id);
  }

  /** A proper name without special characters is accepted as name and as identifier. */
  lemma PlainNamePasses(s: string, digest: string -> string, id: string)
    requires Proper(s) && ByteLen(s) <= 255 && s[0] != '-'
    requires forall i :: 0 <= i < |s| ==> !IsControl(s[i]) && s[i] != '\\' && s[i] != '\0'
    ensures MachineOf(s, s, id, digest) == Some(Machine(s, s))
  {
    ProperIsSegment(s);
    hide IsLocal, Base, ByteLen, Proper;
  }

  // ----- a create whose every call succeeds

  function SmoothDisk(m: Machine): Disk { map[["machines"] := Dir(448), HostDir(m) := Dir(448)] }

  function SmoothCreate(m: Machine): CreateCalls {
    CreateCalls(true, None, true, true, true, CreateRun(true, SmoothDisk(m), true), true, Whole, [Stored], true, true)
  }

  lemma SmoothPaths(m: Machine, p: Path)
    requires Valid(m) && p in SmoothDisk(m)
    ensures p == ["machines"] || p == ["machines", m.name]
    ensures p != [] && AllProper(p) && forall i :: 0 < i < |p| ==> p[..i] == ["machines"]
    ensures forall s :: s in p && s != m.name ==> Portable(s)
  {
    PlainIsPortable("machines");
  }

  lemma SmoothDiskIsPlausible(m: Machine)
    requires Valid(m)
    ensures Plausible(m, SmoothCreate(m).run)
  {
    var d := SmoothDisk(m);
    forall p | p in d
      ensures p != [] && AllProper(p) && forall i :: 0 < i < |p| ==> p[..i] in d && d[p[..i]].Dir?
      ensures forall s :: s in p && s != m.name ==> Portable(s)
    {
      SmoothPaths(m, p);
    }
    assert |CreatedStamp(m)| == 3;
  }

  lemma SmoothDiskPacks(m: Machine)
    requires Valid(m) && ByteLen(m.name) <= 248
    ensures CanPack(m, SmoothDisk(m))
  {
    TarballIsPassedOver(m);
    assert TarballPath(m)[0] == m.name + ".tar.gz" && !Skipped("machines");
  }

  lemma SmoothCreateRuns(m: Machine, w: World)
    requires Valid(m) && !Settled(m, w.snapshot)
    ensures RunsCreate(m, w, SmoothCreate(m))
  {
    hide Load, Listed, SmoothDisk;
    if CreatedStamp(m) in Load(m, w.snapshot).value {
      StampedIsListed(m, w.snapshot);
    }
  }

  lemma SmoothCreateSucceeds(m: Machine, w: World)
    requires Valid(m) && ByteLen(m.name) <= 248 && !Settled(m, w.snapshot)
    ensures Succeeds(m, w, SmoothCreate(m))
  {
    SmoothDiskIsPlausible(m);
    SmoothDiskPacks(m);
    SmoothCreateRuns(m, w);
    hide Plausible, CanPack, SmoothDisk, RunsCreate, Settled;
    assert SmoothCreate(m).updates[0] == Stored;
  }

  /** For every machine whose names pass the checks but are not portable, and whose name
      leaves room for the tarball's (LongNameIsNeverSaved has the others): there is a first
      create event whose every call succeeds, and after it and any further events the host
      is there, its snapshot does not restore, and no purge ends without error. */
  lemma HostIsStranded(m: Machine, events: seq<Event>, p: PurgeCalls)
    requires Valid(m) && !PortableMachine(m) && ByteLen(m.name) <= 248
    ensures var w := Run(m, AfterCreate(m, FRESH, SmoothCreate(m)), events);
            && w.cloud && Load(m, w.snapshot).None?
            && !AfterPurge(m, w, p).1.Purged? && AfterPurge(m, w, p).0.cloud
  {
    SmoothCreateSucceeds(m, FRESH);
    StrandsExactly(m, FRESH, SmoothCreate(m));
    UnloadableForEver(m, AfterCreate(m, FRESH, SmoothCreate(m)), events, p);
  }

  /** A record with the name "a..b" is such a machine. */
  lemma DottedHostIsStranded(digest: string -> string, id: string, events: seq<Event>, p: PurgeCalls)
    ensures var m := Machine("a..b", "a..b");
            && MachineOf("a..b", "a..b", id, digest) == Some(m) && Valid(m)
            && var w := Run(m, AfterCreate(m, FRESH, SmoothCreate(m)), events);
               w.cloud && Load(m, w.snapshot).None? && !AfterPurge(m, w, p).1.Purged?
  {
    DottedNamePasses(digest, id);
    AsciiLen("a..b");
    HostIsStranded(Machine("a..b", "a..b"), events, p);
  }

  // ----- names that leave no room for the tarball's

  function Letters(n: nat): (s: string)
    ensures |s| == n && forall i :: 0 <= i < n ==> s[i] == 'a'
  {
    seq(n, i => 'a')
  }

  /** The checks accept names of 249 to 255 bytes, and no save of such a machine works:
      with accepted names, a directory can be packed at all exactly up to 248 bytes. */
  lemma SavableExactly(name: string, externalID: string, id: string, digest: string -> string)
    requires HexDigest(digest) && MachineOf(name, externalID, id, digest).Some?
    ensures var m := MachineOf(name, externalID, id, digest).value;
            ByteLen(m.name) <= 248 <==> exists d, flush :: Pack(m, d, flush).Some?
  {
    var m := MachineOf(name, externalID, id, digest).value;
    AcceptedMachine(name, externalID, id, digest);
    hide Pack, CanPack, MachineOf, HexDigest;
    if ByteLen(m.name) <= 248 {
      SmoothDiskPacks(m);
      PackExactly(m, SmoothDisk(m), Whole);
      assert Pack(m, SmoothDisk(m), Whole).Some?;
    } else {
      forall d, flush ensures Pack(m, d, flush).None? { TooLongToPack(m, d, flush); }
    }
  }

  lemma LongNamePasses(n: nat, digest: string -> string, id: string)
    requires 249 <= n <= 255
    ensures var s := Letters(n);
            MachineOf(s, s, id, digest) == Some(Machine(s, s)) && ByteLen(s) == n
  {
    var s := Letters(n);
    AsciiLen(s);
    PlainNamePasses(s, digest, id);
  }
}
