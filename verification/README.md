# Verification of the machine and driver event handlers

A Dafny model of the parts of this repository that keep state or must undo one
another, with proofs of what they promise. `dafny verify dfyconfig.toml` checks all of it.

| files | what they hold |
|---|---|
| `options`, `text`, `unixpath`, `orders` | Go's string and path functions on valid UTF-8, and the orders that `filepath.Walk` and `sort.Strings` use |
| `diskwrites`, `archivenames`, `machinearchive`, `machinesave`, `roundtrip`, `headertypes` | a machine directory saved as an archive and restored from one |
| `lifecycle`, `lifecyclesafety`, `lifecycleruns`, `purgedhosts`, `handleroutcomes`, `hostprovisioner`, `expiringset` | one cloud host under create, bootstrap and purge events, and the cache of recent purges |
| `driverarchive`, `drivercache`, `drivercachesafety`, `drivercacheruns`, `driveroutcomes`, `driverhost` | downloaded drivers: extraction, the on-disk cache, installation |
| `flagnaming`, `createcommand` | driver flags as schema fields, and the command line made of their values |
| `progress` | the progress logger and the republisher of transition messages |
| `storagepaths`, `machinenames` | machine identifiers, directories and their removal; which accepted names cannot be restored |
| `connectionargs`, `connectionroundtrip` | reading docker-machine's connection arguments |

How it is built. A directory is a map from segment paths to nodes. An archive is a
sequence of entries. A call into the operating system, the control plane or another
process is a parameter that says how the call turned out, so a theorem for all parameters
covers every combination of these outcomes; the calls without one are named under
"Assumptions" and "Left out". Methods follow the source's control flow and are
proved equal to specification functions; the theorems are about those functions, and the
lemmas named `...Exactly` say what they compute in terms of texts, digests, modes and the
outcomes of calls alone. A crash is a prefix of the list of edits that an operation makes.

## Main results

1. A saved directory tree restores to exactly the filtered tree if its names are free of
   `..` and backslashes and something was archived, and does not restore otherwise
   (`RoundTrip.SavedIsRestorable`, `RoundTrip.SaveThenRestore`).
2. Over every run of create, bootstrap and purge events, the cloud host exists exactly when
   the stored snapshot restores to a directory with the `created` stamp, or did so until a
   save replaced it by an archive that was cut short, and no purge has deleted the host
   (`LifecycleRuns.RunAgreesExactly`). A stamped host is never created again
   (`LifecycleRuns.StampedRunIsQuiet`, `LifecycleRuns.SavedRunIsQuiet`), a purge that reaches
   its end leaves none (`LifecycleRuns.RunThenPurge`), and what it deleted can come back
   exactly if nothing had been saved (`PurgedHosts.PurgedComesBackExactly`). For one event,
   `LifecycleSafety.CreateAgreesExactly` and `LifecycleSafety.BootstrapKeepsStamp` give the
   exact conditions.
3. From an empty driver cache, whatever is staged, installed, cleared and removed and
   wherever the process dies, an index file never names a wrong or partial payload; its
   payload is missing exactly if a removal died at one particular point
   (`DriverCacheRuns.RunIsTruthful`, `DriverCacheRuns.RunInvariantExactly`), and an error
   stands beside it exactly if a Stage could not read it (`DriverCacheRuns.RunMarksExactly`).
   A staged driver stays staged until it is removed (`DriverCacheRuns.StagedUntilRemoved`,
   `DriverCacheRuns.StagedQuietly`), and a record is replayed until it is cleared and then
   never again (`DriverCacheRuns.ReplayHasItsRecord`, `DriverCacheRuns.RecordBetweenReplays`).
   Installation is atomic (`DriverCacheSafety.InstallIsAtomic`), and removal resumes but for
   one case (`DriverCacheSafety.RemoveResumes`).
4. Flag to field to flag is the identity exactly on reversible names
   (`FlagNaming.NamingRoundTrip`, `FlagNaming.FlagRoundTrip`), and the command line of a
   create reads back as the configuration (`CreateCommand.CommandLineReadsBack`,
   `CreateCommand.ConfigReachesDriver`).
5. The set with expiry says what its history says (`ExpiringSets`), in every interleaving
   the first error wins (`Progress.FirstErrorWins`), republishing only repeats
   (`Progress.RepublishingStutters`), and reading connection arguments undoes printing
   them (`ConnectionRoundTrip.ParseUndoesPrint`).

## What the proofs found

- COMPATIBILITY.md line 13 says that a restore takes regular files and directories only and
  rejects links and special files. The code asks only the file mode that a tar header
  implies. So a hard link, a PAX global header (type `g`) and any type but `2`, `3`, `4` and
  `6` pass as regular files, empty ones for the first two, and erase what an earlier entry
  put there; and whatever the type, a header mode with directory bits makes a directory
  (`HeaderTypes.UnpromisedExactly`, `HeaderTypes.PromiseKeptExactly`,
  `HeaderTypes.LastEntryDecides`, `HeaderTypes.ConcreteSlips`, `HeaderTypes.ConcreteModes`).
- The checks on machine names and identifiers accept `a..b`. Such a directory archives but
  never restores: after a create whose every call succeeds, every later event fails in
  preEvent and the host stays at the provider (`MachineNames.HostIsStranded`,
  `MachineNames.DottedHostIsStranded`). An accepted name is affected exactly if it has `..`
  (`MachineNames.AcceptedMachine`).
- A save ignores the errors of closing its archive, which is when its last bytes are
  written. A bootstrap event whose archive is cut short there replaces the good snapshot of
  a stamped host by one that never restores; the host then stays at the provider, and no
  event or purge reaches it (`LifecycleRuns.SpoilsExactly`,
  `LifecycleRuns.SpoiltHostIsStranded`, `LifecycleRuns.SavedHostIsStranded`). For a create
  event, `LifecycleRuns.StrandsExactly` says when the same happens.
- A purge of a machine without a snapshot is answered as a success and does not stop a
  create event from making the host afterwards (`PurgedHosts.RedeliveredCreateMakesHost`). A
  purge leaves the snapshot as it is, so a stamped machine stays stamped without a host.
- The checks accept names of 249 to 255 bytes, which leave no room for the `.tar.gz` of the
  archive: such a machine can never be saved (`MachineNames.SavableExactly`,
  `LifecycleRuns.LongNameIsNeverSaved`).
- A Stage that cannot open the cache or read the index of a staged driver records that error
  beside the valid index (`DriverCacheRuns.RunMarksExactly`). A Remove that is then stopped
  after the index is gone and run again leaves the record behind
  (`DriverCacheSafety.RemoveResumes`).
- A Remove that stops between its second and third deletion leaves an index without its
  payload. From then on Install fails although Stage succeeds, until a Remove takes the
  index away (`DriverCacheRuns.InterruptedRemoveBreaksInstall`).
- The cache key is a digest of URL and checksum written one after the other. Two drivers
  share it exactly if one has a beginning of the other's checksum at the end of its URL
  (`DriverCacheSafety.SharedKeyExactly`, `DriverCacheSafety.MixedLengthsShareAKey`).
- The temporary file of an Install has a name that a driver may have, and the binary of
  such a driver is deleted, or overwritten where it cannot be deleted
  (`DriverCacheSafety.InstallSparesOthers`, `DriverCacheSafety.TmpNameIsADriverName`).
- The logger of a create sends every error line into a channel with room for one, from
  which at most one is ever taken. It waits for ever with the next one, for instance when a
  successful create has written two lines to stderr (`Progress.StuckExactly`,
  `Progress.LoggerIsStuck`).
- A second save differs from the first exactly when an archived mode has a set-id or
  sticky bit, which a restore drops (`RoundTrip.SecondSave`).
- The deferred cleanup must run before the deferred removal of the directory; the other
  order leaks the host (`HostProvisioner.RemovalBeforeCleanupLeaks`).

## Assumptions

- `docker-machine create` leaves a host that it made in its store, reports success only if
  there is one, does not write the stamp itself and uses portable file names
  (`LifecycleSafety.Plausible`). `docker-machine ls` lists a machine when
  `machines/<name>` is a directory.
- For result 2: in create events the cleanup works, the stamp and the whole archive are
  written, and an update that reports an error had no effect (`LifecycleSafety.Honest`);
  bootstrap and purge events may fail anywhere. `CreateAgreesExactly`, `StampedRunIsQuiet`,
  `SavedRunIsQuiet` and `ComesBackExactly` do without this.
- An update whose `extractedConfig` is empty, and therefore omitted
  (third_party/go-rancher/v2/generated_machine.go:48), leaves the stored one as it is.
- For result 3: the drivers in use do not share a cache key (`DriverCache.Distinct`).
  `DriverCacheSafety.DistinctExactly` says when, in the absence of digest collisions among
  them; checksums of one length are enough. A cache operation runs alone.
- The removal of a machine's directory succeeds: result 2, and every statement that no
  directory is left, rest on it. `StoragePaths.Storage.RemoveMachineDir` has its failures.
- The clock of the purge cache does not go back.

## Model

| member | source | states |
|---|---|---|
| ArchiveNames.JudgeMeaning | handlers/config.go:67-85 | The string checks on an entry name accept it exactly when it is nonempty, relative, free of ".." and backslash and its first real segment is the machine's; it then stands for the remaining segments |
| ArchiveNames.AcceptedStaysBelow | handlers/config.go:67-85 | An accepted name stands for one or more proper segments: it lies strictly below the machine directory |
| ArchiveNames.SavedNameIsJudged | handlers/config.go:67-85 | The name that a save gives to a path is read back as that path if all segments are portable, and refused as unsafe otherwise |
| DiskWrites.ReplaySucceeds | handlers/config.go:89-119 | Into an empty directory, a sequence of writes succeeds exactly when none fails in the operating system and no path is wanted both as file and as directory; the disk then shows, path by path, the first creator's mode and the last writer's data |
| DiskWrites.ShownOnce | handlers/config.go:89-119 | That description determines the disk |
| DiskWrites.AttemptConfined | handlers/config.go:89-119 | One write, failed or not, removes nothing and changes nothing but its target and the directories on the way |
| DiskWrites.ReplayConfined | handlers/config.go:55-120 | The same for a whole restore, from any disk |
| DiskWrites.FaultyPut | handlers/config.go:108-119 | A failed file write leaves its target as it was if the open failed, and holding just the copied beginning of the data if the copy did |
| MachineArchive.WritesStayBelow | handlers/config.go:55-120 | Every write of a restore targets proper segments below the machine directory and comes from an accepted entry |
| HeaderTypes.AcceptedExactly | handlers/config.go:67-93 | An entry is accepted if and only if its name is safe and begins with the machine, and by type or mode it is a directory, or it lies below the machine and neither type nor mode says link, device, FIFO or socket |
| HeaderTypes.EntryExactly | handlers/config.go:67-119 | For every header: which error it is refused with, or that it is the root, or the directory or file it becomes, with its path, its lowest nine mode bits and its data, nothing for hard links and global headers |
| HeaderTypes.UnpromisedExactly | handlers/config.go:67-93 | Which headers of a type that is neither regular file nor directory are accepted, in terms of name, type and mode: below the machine any type but "2346" unless the mode says otherwise, and any type at all with the bits of a directory |
| HeaderTypes.PromiseKeptExactly | handlers/config.go:55-120 | A restorable archive has regular files and directories only, if and only if none of its headers slips through, a hard link, a global header or directory bits for instance; symbolic links, devices and FIFOs as such are never in one |
| HeaderTypes.RestoresAsPromised | handlers/config.go:89-119 | Restoring any archive makes the same writes as restoring one of regular files and directories only, and the one can be restored exactly if the other can |
| HeaderTypes.LastEntryDecides | handlers/config.go:108-119 | In a restorable archive the last entry for a path, if taken for a regular file, decides its data: nothing, behind a hard link or a global header, whatever was put there before |
| HeaderTypes.SlippedHeaderErasesData | handlers/config.go:55-120 | For every portable machine and name, a file followed by a hard link or global header of its name restores without error and loses its data |
| HeaderTypes.ConcreteSlips | handlers/config.go:55-120 | Two such archives written out, one without any hard link |
| HeaderTypes.ConcreteModes | handlers/config.go:81-93 | With directory bits a hard link and a symbolic link become directories, even the machine's own, whatever lies above the 32 bits of a file mode; with the bits of a symbolic link a hard link is refused |
| MachineArchive.NextEntry | handlers/config.go:55-120 | One turn of the loop either refuses the entry, passes the root, or attempts exactly the entry's write |
| MachineArchive.StopsOnlyIfNotRestorable | handlers/config.go:55-120 | A restore into an empty directory stops early only for a broken or empty stream, a refused entry, a conflict of paths, or a fault |
| MachineArchive.MachineDir.Write | handlers/config.go:89-119 | The steps for an accepted entry have exactly the effect of one attempted write, also when they fail half-way |
| MachineArchive.MachineDir.RestoreEntries | handlers/config.go:55-120 | Success replays every entry's write in order; failure stops after the writes of a prefix, for the reason that the next entry gives |
| MachineArchive.MachineDir.Restore | handlers/config.go:23-121 | No snapshot restores nothing; into an empty directory it succeeds if and only if the directory can be made and opened, the stream is unbroken and nonempty, every entry passes the checks, no path is both file and directory and nothing fails; the result is the fold of the writes |
| MachineSave.HeaderNameMeaning | handlers/config.go:188 | Joining the base name with the trimmed path gives the base name and the path's own segments |
| MachineSave.SkippedExactly | handlers/config.go:170-175 | Passed over is what ends in one of four suffixes |
| Orders.PathLessExactly | handlers/config.go:163 | The walk visits a directory before its contents, and otherwise goes by the first names that differ |
| Orders.StringLessExactly | handlers/create.go:209 | Names are ordered by the first character that differs, a beginning before what it begins |
| MachineSave.Visit | handlers/config.go:165-205 | The visiting function appends exactly the entry of an archived file or directory, and fails exactly at a link, a special file or an error of its calls |
| MachineSave.AddDirToArchive | handlers/config.go:161-206 | The walk appends one entry per archived path in path order, and fails exactly at an archived symbolic link or special file or an error of one of its calls |
| MachineSave.WalkComplete | handlers/config.go:161-206 | Filtering the pre-order walk gives the archived paths in their unique ascending order, children of a passed-over directory included |
| RoundTrip.SavedIsRestorable | handlers/config.go:52-206 | What was saved can be restored if and only if all archived names are portable and anything was archived |
| RoundTrip.SaveThenRestore | handlers/config.go:23-206 | Save, which works exactly for trees without archived links and special files and without failing calls, then restore into an empty directory, which succeeds exactly if all archived names are portable and anything was archived, and yields exactly the filtered tree: every archived node of the same kind, with the same data and permission bits, and unchanged if its mode is below 01000 |
| RoundTrip.OnlyTheFilteredTree | handlers/config.go:52-206 | A disk that shows the saved writes is the filtered tree |
| RoundTrip.FilteredTreeIsShown | handlers/config.go:52-206 | The filtered tree has at each path the mode of its first and the data of its last write |
| RoundTrip.FilteredTreeMeaning | handlers/config.go:170-175 | An archived node comes back with its permissions and data; a file of a passed-over suffix does not; a directory of such a name exactly when something archived is below it |
| RoundTrip.NodesComeBack | handlers/config.go:89-119 | Every archived node comes back with its data and the lowest nine bits of its mode, all of it if these are the whole mode; a directory that was passed over with 0740 or the permissions of the first directory below it |
| RoundTrip.FilteredTreeIsTree | handlers/config.go:52-206 | What comes back is a directory tree again |
| RoundTrip.FilteredArchived | handlers/config.go:52-206 | Of what comes back the same paths are archived |
| RoundTrip.SecondSave | handlers/config.go:93-106 | Saving the restored tree gives the same entries exactly when every archived mode is below 01000 |
| LifecycleSafety.LoadedIsTree | handlers/config.go:52-120 | A restored directory is a tree of regular files and directories with portable names, so it can be saved |
| LifecycleSafety.PackThenLoad | handlers/config.go:123-159 | The archive file of a packed directory, unless empty, loads again exactly when all of it was written and the names are portable, and then an archived path, a stamp for one, is there exactly when it was |
| LifecycleSafety.PackKeepsContents | handlers/config.go:123-159 | Then every archived file and directory is back with its data and permissions |
| LifecycleSafety.RetryOutcome | handlers/config.go:234-242 | The retry loop succeeds exactly if one of three updates is answered as stored, and ends with the updated snapshot exactly if one was stored, seen or unseen |
| LifecycleSafety.PackExactly | handlers/config.go:123-206 | A directory can be packed exactly if the machine's name has at most 248 bytes, the tarball can be opened in it and no archived node is a link or special file |
| LifecycleSafety.SaveOutcome | handlers/config.go:222-243 | When a save succeeds, when it replaces the snapshot, and when what it puts there loads again: exactly if the whole archive was written and the names are portable |
| LifecycleSafety.SaveKeepsContents | handlers/config.go:222-243 | A snapshot that a save stored in full brings every archived file back |
| LifecycleRuns.LongNameIsNeverSaved | handlers/config.go:142-147 | With a longer name no run of events ever changes the snapshot |
| LifecycleSafety.SaveOfCreate | handlers/create.go:102-108 | After a successful create the save succeeds exactly under those conditions on directory and answers, and what it puts in place of the snapshot is stamped exactly if the stamp and the whole archive were written and the names are portable |
| LifecycleSafety.CreateAgreesExactly | handlers/create.go:30-117 | One create event keeps host and stamped snapshot in step if and only if a condition on its calls holds: how create ended, whether the directory can be packed, which updates were answered as stored, whether the stamp and the whole archive were written and the cleanup worked, and portable names |
| LifecycleSafety.CreateKeepsAgreement | handlers/create.go:30-117 | Under the assumptions on the calls, every create event keeps host and stamp in step |
| LifecycleSafety.StampedIsNotRecreated | handlers/create.go:44-50 | With a stamped snapshot, a redelivered create runs no provider command and changes nothing |
| LifecycleSafety.NoDirectoryLeft | handlers/create.go:37-57 | Every return after preEvent leaves no machine directory |
| LifecycleSafety.BootstrapKeepsStamp | handlers/bootstrap.go:31-154 | After a bootstrap event, whatever fails, the snapshot is stamped as created if and only if it was and the event did not store an archive that was cut short; if it did, the snapshot does not restore |
| LifecycleSafety.SaveOfBootstrap | handlers/bootstrap.go:49-54 | What its save puts in place of the snapshot loads exactly if the whole archive was written, and then has the created stamp exactly as before |
| HandlerOutcomes.CreateExactly | handlers/create.go:30-117 | Which commands a create event runs and what becomes of host, snapshot and directory, for all outcomes of its calls: create exactly if it is handled and started without finding a stamp, and the delete exactly if it then fails with the machine listed |
| HandlerOutcomes.CreateSavesEverything | handlers/create.go:102-108 | After a create whose checked calls succeed, every archived file that docker-machine left comes back from the snapshot |
| HandlerOutcomes.CreateSavesStamp | handlers/create.go:271-290 | So does the stamp, machines/<name>/created, an empty file |
| HandlerOutcomes.BootstrapExactly | handlers/bootstrap.go:31-154 | A bootstrap event changes the snapshot only if the agent was installed before or is now, and the stamp can be written; what it then stores in full has machines/<name>/bootstrapped |
| HandlerOutcomes.BootstrapKeepsContents | handlers/bootstrap.go:49-54 | And every archived file that had been restored |
| HandlerOutcomes.PurgeExactly | handlers/remove.go:66-93 | A purge runs the delete exactly for a machine that it knows, restores and finds listed, reaches its end exactly if no call that it makes fails, and leaves the snapshot alone |
| LifecycleRuns.RunAgreesExactly | handlers/create.go:30-117 | Over every run of create, bootstrap and purge events, redeliveries and failures included, the host exists if and only if the snapshot has the stamp or was spoilt when it had, and no purge has deleted the host |
| LifecycleRuns.RunKeepsAgreement | handlers/create.go:30-117 | So host and stamp are in step after every run in which no bootstrap event stores an archive that was cut short and no purge deletes the host |
| LifecycleRuns.StampedRunIsQuiet | handlers/create.go:42-50 | From a stamped snapshot, over every run with any failures, no create command is executed; the stamp is there at the end if and only if no bootstrap event spoilt the snapshot, and the host if and only if no purge deleted it |
| LifecycleRuns.SavedRunIsQuiet | handlers/create.go:42-116 | The same for every run after a create that succeeds, writes its stamp and its whole archive and gets an update stored |
| LifecycleRuns.PurgeDeletesWhatCreateMade | handlers/remove.go:66-93 | A stamped snapshot restores to a directory with the machine, so a purge issues the delete, and it reaches its end exactly when the resource is a machine and its calls succeed |
| LifecycleRuns.RunThenPurge | handlers/remove.go:52-94 | Any run from a new machine followed by a purge that reaches its end leaves no host |
| LifecycleRuns.SettledForEver | handlers/create.go:42-116 | Once the snapshot restores to a directory that has the machine, or does not restore, that stays so over every run, and no host is made any more |
| LifecycleRuns.SnapshotOfRun | handlers/create.go:30-117 | During a run from a new machine the snapshot is missing, stamped or not restorable |
| PurgedHosts.ComesBackExactly | handlers/create.go:42-116 | Some run of events makes a host that is not there, if and only if the snapshot restores to a directory without the machine |
| PurgedHosts.PurgedComesBackExactly | handlers/remove.go:52-94 | After any run from a new machine and a purge that reaches its end, the host can come back if and only if no snapshot had been stored |
| PurgedHosts.RedeliveredCreateMakesHost | handlers/create.go:30-117 | In that case one create event whose every call succeeds makes the host |
| LifecycleRuns.StrandsExactly | handlers/create.go:102-116 | A create whose checked calls all succeed leaves a host, and a snapshot that can be restored if and only if the whole archive was written and the names are portable |
| LifecycleRuns.SpoilsExactly | handlers/config.go:147-159 | With a saved, stamped snapshot, a bootstrap event that gets to its save spoils it if and only if the archive was cut short, though not to nothing, and stored |
| LifecycleRuns.SpoiltHostIsStranded | handlers/bootstrap.go:31-154 | Then the host stays, whatever follows, and can neither be restored nor purged |
| LifecycleRuns.SavedHostIsStranded | handlers/bootstrap.go:31-154 | It can happen to every saved host, with all checked calls of both events succeeding |
| LifecycleRuns.UnloadableForEver | handlers/common.go:455-458 | A snapshot that does not restore is never replaced by any later run of events, and no purge reaches its end |
| MachineNames.AcceptedMachine | handlers/common.go:106-161 | Names that pass the checks are proper and free of backslashes; they are portable if and only if they have no ".." |
| MachineNames.MachineOfExactly | handlers/common.go:106-161 | For every record, which directory and machine name it gets, or that it is refused |
| MachineNames.DottedNamePasses | handlers/common.go:106-161 | The checks accept "a..b" as name and identifier, and it is not portable |
| MachineNames.HostIsStranded | handlers/create.go:30-117 | Every machine with an accepted unportable name that can be saved at all has a first create event whose every call succeeds and after which, whatever follows, the host stays and can neither be restored nor purged |
| MachineNames.SavableExactly | handlers/common.go:136-161 | With an accepted name some directory can be packed if and only if the name has at most 248 bytes |
| MachineNames.LongNamePasses | handlers/common.go:140-161 | The checks accept longer names |
| MachineNames.DottedHostIsStranded | handlers/create.go:30-117 | A record named "a..b" is such a machine |
| HostProvisioner.UnwindStages | handlers/create.go:37-70 | The deferred calls at each early return amount to cleanup in the directory, then its removal |
| HostProvisioner.RemovalBeforeCleanupLeaks | handlers/create.go:37-57 | With cleanup deferred after the removal the host goes; with the removal deferred after the cleanup it stays |
| HostProvisioner.PurgeSpares | handlers/remove.go:52-94 | One purge leaves the host of another resource alone, and that of a lately purged one |
| HostProvisioner.CachedPurgeExactly | handlers/remove.go:52-94 | A lately purged resource is skipped; any other purge runs and is remembered exactly if it reaches its end, so a failed one can be tried again at any time |
| HostProvisioner.NoSecondDeleteWithinTtl | handlers/remove.go:52-94 | After a purge that reached its end, purges of the same resource within one ttl delete and change nothing, whatever other resources are purged through the same cache meanwhile |
| HostProvisioner.Provisioner.PreEvent | handlers/common.go:420-461 | It succeeds exactly when the calls do and the snapshot restores, and then the directory is the restored one |
| HostProvisioner.Provisioner.CleanupResources | handlers/common.go:369-408 | A listed machine is deleted and then its directory removed; without listing, machine or successful delete the directory stays |
| HostProvisioner.Provisioner.SaveMachineConfig | handlers/config.go:222-243 | The directory is packed, its file read as it is after closing, and stored with up to three updates, as the specification of a save says |
| HostProvisioner.Provisioner.RunDeferred | handlers/create.go:37-70 | Deferred calls run last in, first out |
| HostProvisioner.Provisioner.CreateBody | handlers/create.go:37-116 | The body leaves a state whose unwinding is the specified result, at each of its returns |
| HostProvisioner.Provisioner.CreateAndSave | handlers/create.go:80-116 | Start, wait, stamp and save, with the cleanup that their failure calls for |
| HostProvisioner.Provisioner.CreateMachine | handlers/create.go:30-117 | The handler does exactly what the specification says, and leaves no directory after preEvent |
| HostProvisioner.Provisioner.ActivateMachine | handlers/bootstrap.go:31-154 | The stamp protocol of bootstrap does exactly what the specification says, and leaves no directory after preEvent |
| HostProvisioner.Provisioner.PurgeMachine | handlers/remove.go:52-94 | A cached resource is skipped and one that is no machine only answered; otherwise restore, delete if listed, and remember only a purge that reached its end |
| ExpiringSets.LookupIsLive | handlers/remove.go:23-36 | The map answers as the history of additions does: some addition of the key has not run out |
| ExpiringSets.DroppingExpired | handlers/remove.go:23-48 | Lazy deletion and pruning are unobservable, now and later |
| ExpiringSets.AddingSummarises | handlers/remove.go:38-48 | An addition keeps the map in agreement with the longer history |
| ExpiringSets.KeysAreLive | handlers/remove.go:38-48 | After pruning, the keys are exactly the live ones |
| ExpiringSets.LiveUntilTtl | handlers/remove.go:38-48 | An addition stays in force until its ttl, whatever follows |
| ExpiringSets.LiveExactly | handlers/remove.go:27-36 | And it is live exactly that long |
| ExpiringSets.ExpiringSet.Contains | handlers/remove.go:23-36 | It returns true if and only if the history has a live addition |
| ExpiringSets.ExpiringSet.Prune | handlers/remove.go:38-48 | Exactly entries that have run out are dropped |
| ExpiringSets.ExpiringSet.Add | handlers/remove.go:38-48 | The history grows by one addition, and with a positive ttl the keys are then exactly the live set |
| DriverArchive.SafeDriverNameIsStable | dynamic/driver.go:567-580 | An accepted driver name is accepted again, unchanged |
| DriverArchive.SafeDriverNameIsProper | dynamic/driver.go:567-580 | An accepted name is one proper path segment with the driver prefix and more |
| DriverOutcomes.SafeDriverNameExactly | dynamic/driver.go:567-580 | A text is accepted as a driver's name exactly if, trimmed, it is the prefix and more, of at most 255 bytes, without control characters and slashes of either kind |
| Text.TrimSpaceExactly | dynamic/driver.go:568 | Trimming takes white space off both ends, and all of it |
| DriverOutcomes.SafeEntryExactly | dynamic/driver.go:448-453 | An entry name is accepted exactly if it is not empty, not absolute and without two dots in a row and backslashes; its base name is its last real segment |
| DriverArchive.ScanMeaning | dynamic/driver.go:369-446 | The scan has found nothing exactly when no entry is refused and none is a binary, and one binary exactly when no entry is refused, exactly one is a binary and it fits the limit |
| DriverArchive.ExtractMeaning | dynamic/driver.go:369-464 | Extraction succeeds exactly when no entry is refused, exactly one is a binary and it fits the limit, and yields that binary |
| DriverArchive.ExtractionExactly | dynamic/driver.go:369-464 | The same entry by entry: every entry has a safe name and is a file or directory, exactly one is a regular file with a driver's base name, and it fits; the result is its bytes and trimmed name |
| DriverOutcomes.HoldsDriverExactly | dynamic/driver.go:369-446 | Which entries hold a driver, from their name and kind |
| DriverOutcomes.ExtractionFails | dynamic/driver.go:369-446 | The first wrong entry decides the error: unsafe name, neither file nor directory, a second driver, too large |
| DriverOutcomes.ExtractionWorks | dynamic/driver.go:369-446 | Without a wrong entry the driver is extracted, or it is an error that there is none |
| DriverOutcomes.KindsExactly | dynamic/driver.go:376-432 | Typeflag '5' says directory, '0' and NUL say regular file; in a zip archive the mode does |
| DriverOutcomes.ExecutableExactly | dynamic/driver.go:291-306 | A bare executable is named by the last element of the URL's path up to the first underscore and accepted up to 512 MiB |
| DriverArchive.ExtractedNameIsSafe | dynamic/driver.go:369-446 | The extracted name passes the name check |
| DriverArchive.ExtractIgnoresOrder | dynamic/driver.go:369-446 | The order of the entries does not matter to what is extracted |
| DriverArchive.TempFile.CopyWithLimit | dynamic/driver.go:455-464 | The copy succeeds exactly within the limit and then holds all the bytes |
| DriverArchive.VisitZip | dynamic/driver.go:369-408 | One zip entry takes the scan one step |
| DriverArchive.CopyDriverFromZip | dynamic/driver.go:369-408 | The zip loop extracts exactly what the common specification says |
| DriverArchive.VisitTar | dynamic/driver.go:410-446 | One tar entry takes the scan one step |
| DriverArchive.CopyDriverFromTar | dynamic/driver.go:410-446 | The tar loop extracts exactly what the common specification says, so it agrees with zip |
| DriverCacheSafety.FileNamesNeverClash | dynamic/driver.go:155-209 | Index, payload and error files of all keys and names are different files |
| DriverCacheSafety.SharedKeyExactly | dynamic/driver.go:507-509 | Without a collision two drivers share a key if and only if one has a beginning of the other's checksum at the end of its URL and the rest as its own checksum |
| DriverCacheSafety.DistinctExactly | dynamic/driver.go:507-509 | So no two of a set of drivers share a key if and only if none is another one shifted in this way |
| DriverCacheSafety.KeysIdentifyDrivers | dynamic/driver.go:507-509 | In particular, drivers with checksums of one length never share a key |
| DriverCacheSafety.MixedLengthsShareAKey | dynamic/driver.go:477-509 | With the two lengths that the code accepts, any SHA-512 driver shares its key with a SHA-256 driver |
| DriverCacheSafety.CopyBinaryThroughout | dynamic/driver.go:280-346 | The cache invariant holds after every edit of copyBinary; the index appears only with a complete, genuine payload |
| DriverCacheSafety.StageThroughout | dynamic/driver.go:102-209 | The invariant holds after every edit of Stage; success means the driver is indexed under the returned name |
| DriverCacheSafety.StageKeepsBin | dynamic/driver.go:102-209 | Stage never touches the installed binaries |
| DriverOutcomes.StageExactly | dynamic/driver.go:102-209 | Without index and recorded error, Stage succeeds if and only if its calls work, the download is within the limit, holds a driver, and its SHA-256 or SHA-512, chosen by the length of the checksum, equals the trimmed lower-case checksum |
| DriverOutcomes.StageStores | dynamic/driver.go:280-346 | Then exactly the payload under key and name and the name under the key are new, the key being the SHA-256 of URL and checksum |
| DriverOutcomes.TamperedIsRefused | dynamic/driver.go:194-196 | A download with another digest is an error, and adds no file but the record |
| DriverOutcomes.FailedStageLeavesNothing | dynamic/driver.go:318-343 | Nor does any failed Stage whose remains can be removed |
| DriverOutcomes.OtherOutcomes | dynamic/driver.go:155-171 | A builtin driver is not downloaded, and an index that holds no driver's name is an error for Stage and Remove |
| DriverCacheSafety.StageIsStable | dynamic/driver.go:102-171 | A Stage of a staged driver returns its name and edits nothing, if and only if no error is recorded and its reads work |
| DriverCacheSafety.ErrorIsReplayedOnce | dynamic/driver.go:125-141 | A recorded error is returned without a download, and its record is gone afterwards exactly if its removal worked, with nothing else changed |
| DriverOutcomes.SafeErrorMessageExactly | dynamic/driver.go:604-618 | The replayed text is the trimmed one with blanks for control characters, cut behind the character that brings it to 4096 bytes |
| DriverCacheSafety.ErrorIsRecorded | dynamic/driver.go:110-123 | A failed Stage whose record is written leaves its own message to replay |
| DriverCacheSafety.InstallThroughout | dynamic/driver.go:211-263 | Install keeps the cache invariant after every edit |
| DriverCacheSafety.InstallIsAtomic | dynamic/driver.go:211-263 | After every prefix of Install the binary is the old one or the complete payload, and no binary but it and the temporary one has changed |
| DriverOutcomes.InstallExactly | dynamic/driver.go:211-263 | Install succeeds if and only if the name is a driver's, its calls work and the payload is in the cache, and then the binary is that payload |
| DriverOutcomes.NothingToInstall | dynamic/driver.go:211-219 | A builtin driver's Install does nothing, and one under a wrong name changes nothing |
| DriverOutcomes.StagedInstalls | handlers/machine_driver.go:112-139 | After a successful Stage, Install succeeds if and only if its own calls work |
| DriverCacheSafety.InstallSparesOthers | dynamic/driver.go:211-237 | Every other binary survives an Install but one with the name of the temporary file, which survives exactly if the directories cannot be opened or that file can neither be removed nor opened; otherwise it is gone, or a failed Install leaves a part of the payload in its place, exactly if its removal fails |
| DriverCacheSafety.TmpNameIsADriverName | dynamic/driver.go:231 | The name of a temporary file is an acceptable driver name exactly up to the length limit, so there can be such a binary |
| DriverCacheSafety.StageThenInstall | handlers/machine_driver.go:112-139 | A successful Stage and Install publish exactly the verified payload |
| DriverCacheSafety.RemoveIsFramed | dynamic/driver.go:68-100 | A complete Remove takes away the driver's three files and its binary and nothing else |
| DriverOutcomes.RemoveExactly | dynamic/driver.go:68-100 | Remove succeeds if and only if there is no index, or it holds a driver's name and all four deletions work; ClearError takes away exactly the record |
| DriverCacheSafety.RemoveResumes | dynamic/driver.go:68-100 | Stopped after any step and run again, Remove ends where one run would have, if and only if it was not stopped just before deleting a recorded error |
| DriverCacheSafety.RemoveInconsistency | dynamic/driver.go:68-100 | Inside a Remove the invariant fails exactly after the second deletion |
| DriverCacheRuns.OpKeepsToItsKey | dynamic/driver.go:68-346 | An operation edits only cache files that begin with its own driver's key |
| DriverCacheRuns.ClearErrorThroughout | dynamic/driver.go:143-153 | Clearing the error keeps the invariant |
| DriverCacheRuns.OpThroughout | dynamic/driver.go:68-263 | Each operation keeps the invariant, all but Remove after every edit |
| DriverCacheRuns.OnlyRemoveChangesIndexed | dynamic/driver.go:102-171 | While a driver is indexed, no operation on any driver but its own removal changes any of its files but the error file, wherever it is cut short |
| DriverCacheRuns.StagedUntilRemoved | dynamic/driver.go:102-171 | Once Stage has succeeded, through every run with crashes and failing calls until the driver is removed, its index and payload stay as they are and genuine, and a Stage returns the same name and edits nothing if and only if its reads work and no error has been recorded |
| DriverCacheRuns.StagedQuietly | dynamic/driver.go:102-171 | Where no Stage of the key records a failed read, no error appears in that time, and every Stage that can read returns the name and edits nothing |
| DriverCacheRuns.RecordAfterEvent | dynamic/driver.go:110-141 | An error record found after an event was there before and not cleared, or is the event's own |
| DriverCacheRuns.ReplayHasItsRecord | dynamic/driver.go:102-141 | Over every run, each replay returns the error of one earlier failed Stage of the same key, which no Stage in between has cleared |
| DriverCacheRuns.RecordBetweenReplays | dynamic/driver.go:102-141 | Over every run, between a replay that clears its record and the next one for the key lies a Stage of that key that wrote a record |
| DriverCacheRuns.MarkChanges | dynamic/driver.go:68-171 | How one event, cut anywhere, changes whether an error stands beside an index |
| DriverCacheRuns.RunMarksExactly | dynamic/driver.go:68-171 | After every run an error stands beside an index, if and only if some Stage could not read the index and recorded that, and nothing has taken index or record away since |
| DriverCacheRuns.NeverMarked | dynamic/driver.go:102-171 | Where no Stage of the key records a failed read, index and error never stand side by side |
| DriverCacheRuns.HollowChanges | dynamic/driver.go:68-100 | How one event, cut anywhere, changes whether an index lacks its payload |
| DriverCacheRuns.RunIsTruthful | dynamic/driver.go:68-263 | After every run with crashes anywhere, removals included, an index never names a wrong payload, and lacks its payload if and only if a removal died between its second and third deletion and none has taken the index away since |
| DriverOutcomes.IndexedHasDigest | dynamic/driver.go:68-263 | After every run with crashes anywhere, an indexed payload comes from bytes with the checksum's digest |
| DriverCacheRuns.RunInvariantExactly | dynamic/driver.go:68-263 | After every run the cache invariant holds if and only if no known driver was left so |
| DriverCacheRuns.RunKeepsInvariant | dynamic/driver.go:68-263 | It holds after every run in which no removal dies at that point |
| DriverCacheRuns.HollowUntilRemoved | dynamic/driver.go:68-100 | An index left without payload stays so, with all files of its key but the error file, through every run until a removal takes the index away |
| DriverCacheRuns.InterruptedRemoveBreaksInstall | dynamic/driver.go:68-100 | All that time Install fails, and yet Stage reports success without an edit, if and only if its reads work and no error has been recorded |
| DriverHosts.DriverHost.Do | dynamic/driver.go:68-346 | Each edit changes the directories as the specification says |
| DriverHosts.DriverHost.FillCache | dynamic/driver.go:280-346 | Writing the payload makes one edit for the creation and each further byte |
| DriverHosts.DriverHost.FillBin | dynamic/driver.go:211-263 | The same for the temporary binary |
| DriverHosts.MachineDriver.CopyBinary | dynamic/driver.go:280-346 | It makes exactly the edits specified, in that order |
| DriverHosts.MachineDriver.StageInner | dynamic/driver.go:155-209 | The same for stage |
| DriverHosts.MachineDriver.Stage | dynamic/driver.go:102-141 | The same for Stage with its error record, and the driver learns its name |
| DriverHosts.MachineDriver.Install | dynamic/driver.go:211-263 | The same for Install |
| DriverHosts.MachineDriver.InstallFile | dynamic/driver.go:225-263 | The same for its copy, rename and deferred removal |
| DriverHosts.MachineDriver.Remove | dynamic/driver.go:68-100 | The same for Remove, stopping at the first deletion that fails |
| DriverHosts.ActivationThroughout | handlers/machine_driver.go:112-139 | Stage followed by Install keeps the invariant at every edit and publishes a genuine binary |
| DriverHosts.Activate | handlers/machine_driver.go:112-139 | Stage, refuse a taken name, install: it succeeds if and only if Stage does, the name is free and the calls of Install work; success leaves the genuine binary under the driver's name, refusal leaves the binaries alone |
| FlagNaming.ToLowerCamelCase | dynamic/utils.go:62-73 | The field of a flag is its first part after the driver followed by the others capitalised; without a hyphen it is an error, and an empty later part panics |
| FlagNaming.CamelFieldExactly | dynamic/utils.go:62-73 | A flag has no field exactly if it has no hyphen, or, by a panic, ends in a hyphen or has two in a row behind the first |
| FlagNaming.ReplacedConcat | handlers/create.go:28 | The regular expression replacement works piece by piece, with a hyphen exactly where a lower-case letter meets an upper-case one |
| FlagNaming.NamingRoundTrip | handlers/create.go:217-219 | Hyphenating a camelCase field gives back the parts if and only if they are reversible |
| FlagNaming.FlagRoundTrip | handlers/create.go:217-219 | The flag on the command line is the driver's own flag if and only if the driver is lower case and the parts are reversible |
| FlagNaming.FieldsDoNotCollide | dynamic/driver_info.go:93-106 | Reversible flags with the same field are the same flag |
| FlagNaming.CollectFields | dynamic/driver_info.go:93-100 | The schema has exactly the flags' fields, each with the type of its last flag; otherwise the first flag without a field decides between error and panic |
| FlagNaming.HideFields | dynamic/driver_info.go:102-106 | Exactly the driver's withheld fields are taken out |
| FlagNaming.SchemaKeepsEveryFlag | dynamic/driver_info.go:49-106 | On reversible flags no field is lost to a collision, and each has its flag's type: boolean, array of strings, or string for all else |
| CreateCommand.MapToSlice | handlers/create.go:252-258 | One key=value text per key, in iteration order |
| CreateCommand.BuildEngineOpts | handlers/create.go:260-269 | The flag before every nonempty value, in order |
| CreateCommand.WithoutEmptyExactly | handlers/create.go:262-267 | What is left of a list are its nonempty values, each as often as before |
| CreateCommand.WithoutEmptyConcat | handlers/create.go:262-267 | And they are in the order of the list |
| CreateCommand.AppendEngine | handlers/create.go:189-199 | The seven kinds of engine options follow each other |
| CreateCommand.AppendConfig | handlers/create.go:205-246 | The fields are appended in sorted order whatever the iteration order; it fails exactly on an unsupported value |
| CreateCommand.BuildMachineCreateCmd | handlers/create.go:188-250 | The command line is the specified one in every iteration order, or missing for a driver without configuration or an unsupported value |
| CreateCommand.CommandLineShape | handlers/create.go:188-250 | There is no command line exactly without a configuration or with an unsupported value other than "Resource"; it begins with create -d and the driver in lower case and ends with the name |
| CreateCommand.DecodeItems | handlers/create.go:188-250 | Flags with their values are read back as their settings, whatever follows |
| CreateCommand.SettingsMeaning | handlers/create.go:217-246 | The settings hold every item that says something, with its value, and nothing else of it |
| CreateCommand.CommandLineReadsBack | handlers/create.go:188-250 | The command line decodes to the driver, the settings of all items and the machine name last |
| CreateCommand.ConfigReachesDriver | handlers/create.go:205-246 | The driver is told exactly the configuration minus false, empty, nil and "Resource": true as a switch, a text once, lists value by value in order |
| CreateCommand.EngineOptionsArrive | handlers/create.go:192-198 | By each of the seven engine flags, the engine is told what the host says there: the install URL and the storage driver once if not empty, the others their nonempty values in order |
| CreateCommand.EngineMapRecovered | handlers/create.go:252-269 | An engine map without "=" in its keys is recovered from its texts in every iteration order |
| CreateCommand.SchemaFlagsCover | handlers/create.go:205-246 | What a user enters for a reversible flag's schema field arrives under that flag |
| Progress.StepKeepsFirst | handlers/create.go:86-99 | Every step keeps the reports in the channel or pending, in order, until one is returned |
| Progress.StepKeepsOrder | handlers/create.go:119-152 | Every step reads stdout first and stderr after it |
| Progress.FirstErrorWins | handlers/create.go:86-152 | In every interleaving a failed create returns the process error or the report of the first error line read, never a later one |
| Progress.ReportExactly | handlers/create.go:143-152 | A line is an error exactly if it comes from stderr or contains "Error creating machine: ", whose first occurrence is taken out before the provider sees it |
| Progress.FirstReport | handlers/create.go:119-141 | The first report is that of the first error line |
| Progress.ResultExactly | handlers/create.go:86-99 | In every interleaving: success when the process succeeds; the process error on a timeout, without an error line and for an empty report; otherwise the report of the first error line |
| Progress.StuckExactly | handlers/create.go:86-152 | Nothing can move any more exactly if the waiter has returned and the logger is finished or has a report that finds no room |
| Progress.LoggerIsStuck | handlers/create.go:119-152 | With two lines on stderr a successful create can leave the logger waiting for ever |
| Progress.Republish | handlers/common.go:176-202 | The loop publishes the specified sequence |
| Progress.RepublishingStutters | handlers/common.go:176-202 | What is published is what was received, each message repeated one or more times in order, the empty one exactly once |
| Progress.TicksRepublish | handlers/common.go:176-202 | Every message is published when it arrives, and on every tick the last one again, unless there is none or it is empty |
| Progress.NothingAfterClose | handlers/common.go:176-202 | Nothing is published once the close has been seen |
| StoragePaths.IdentifierIsStable | handlers/common.go:106-126 | The identifier is one proper path segment, and computing it again changes nothing |
| StoragePaths.IdentifierMeaning | handlers/common.go:106-126 | A usable identifier is kept; only the empty one and those with NUL are refused |
| StoragePaths.IdentifierExactly | handlers/common.go:106-126 | Every usable identifier is kept, "" and NUL are refused, and any other is replaced by legacy- and its digest |
| StoragePaths.CommandNameIsStable | handlers/common.go:140-161 | The command name is a proper segment, never an option, and stable |
| StoragePaths.CommandNameExactly | handlers/common.go:140-161 | It is the name, or without one the external identifier, or without that the other one, if usable and no option |
| StoragePaths.RelShape | handlers/config.go:245-266 | A relative path stays inside its base exactly when the target does, and otherwise starts with ".." |
| StoragePaths.OutwardIsNotLocal | handlers/config.go:245-266 | A relative path that leads out is not local |
| StoragePaths.RefusedOnlyOutside | handlers/config.go:245-266 | The checks refuse only targets that are not strictly below the machines directory |
| StoragePaths.RemovedOnlyInside | handlers/config.go:245-266 | What passes them is strictly below, and the path removed is the one given |
| StoragePaths.Storage.BuildBaseMachineDir | handlers/common.go:43-66 | The machine directory is one segment below the machines directory and is created with what is missing above it, exactly if the identifier is usable, no non-directory is in the way and no call fails; a failure leaves at most directories on the way to the machines directory |
| StoragePaths.Storage.RemoveMachineDir | handlers/config.go:245-266 | Exactly the subtree at the path goes, but for what cannot be removed, if the path lies strictly below the machines directory and that can be opened, and nothing otherwise |
| ConnectionArgs.ParseConnectionArgs | handlers/bootstrap.go:379-413 | The endpoint of the only host argument, and under each of three keys the last value |
| ConnectionRoundTrip.HostFound | handlers/bootstrap.go:29 | The host argument is found once, whole, and what is left is the text around it |
| ConnectionRoundTrip.SplitIntoPieces | handlers/bootstrap.go:395-396 | The rest falls apart into exactly the printed arguments |
| ConnectionRoundTrip.AbsorbItems | handlers/bootstrap.go:397-410 | The pieces fill the three fields with the values last set |
| ConnectionRoundTrip.ParseUndoesPrint | handlers/bootstrap.go:379-413 | For every order of the arguments, quoted or not, reading recovers the endpoint and the three values |
| ConnectionRoundTrip.NoHostIsRefused | handlers/bootstrap.go:381-384 | Without a host argument nothing is read |
| ConnectionRoundTrip.TwoHostsAreRefused | handlers/bootstrap.go:381-384 | Nor with two |
| ConnectionRoundTrip.EqualSignIsRefused | handlers/bootstrap.go:385-388 | Nor with an "=" in the endpoint |
| ConnectionRoundTrip.WordsBeforeFlagAreDropped | handlers/bootstrap.go:394-395 | Word characters right before two hyphens go with them |
| ConnectionRoundTrip.TrimQuotesExactly | handlers/bootstrap.go:400 | Quotes and blanks around a value are taken off in any mixture |

## Left out

- HTTP, the Docker client, plugins, the control-plane API and processes: each call is a parameter that says how it ended.
- The bytes of tar, gzip, zip and base64 and the digests themselves: entry sequences and uninterpreted functions stand for them.
- Strings that are not valid UTF-8, and case mapping and character classes beyond ASCII, except for white space.
- `copyData`, `populateFields`, `applyHostTemplate`: they rest on the merge rules of `encoding/json` and on generated client types.
- Concurrent Stage, Install or Remove for one key: the code takes no lock there.
- The writes of a cache index file and of an error file are taken as atomic.
- Umask, ownership and the enforcement of permissions; the modes themselves are modelled.
- Symbolic links in a directory that is restored into: a non-directory in the way is a failure.
- The jail, chroot and credentials of the child processes.
- A directory left over by a preEvent that failed: a restore starts from an emptied directory.
- Sending to the publishing channel after its close, and the end of the progress logger: no synchronisation in the code orders them.
- Provider prettifiers, logging, locale, schema upload and roles, polling of builtin drivers: nothing hard in them.
- Engine map values that are not strings, which `%s` prints in Go's error notation.
- Failures to open the directories, or to read the index, in Remove and ClearError: they end the operation before its first edit, as a crash there does. Stage and Install have parameters for theirs.
- Errors that a save looks at while a directory is read, compressed and encoded, in the lifecycle: they end a save as three refused updates do. `MachineSave.AddDirToArchive` has those of the walk, and `Lifecycle.Flush` the ignored ones.
- The exact texts of errors in the driver operations, which are parameters where they are recorded and replayed.
- Errors while an archive entry of a driver download is read: they end a download as a failed spool does.
- StoragePaths.RelShape: filepath.Rel is modelled on the segments of cleaned absolute paths, which is what its callers pass.
