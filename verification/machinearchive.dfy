/** Saving a machine directory as an archive and restoring it (handlers/config.go). */
module MachineArchive {
  import opened UnixPath
  import opened DiskWrites
  import opened ArchiveNames

  /** A header as tar.Reader.Next returns it, and the bytes behind it in the archive. */
  datatype Entry = Entry(name: string, typeflag: char, mode: int, data: Bytes)

  const TYPE_REG := '0'
  const TYPE_LINK := '1'
  const TYPE_DIR := '5'
  const TYPE_GLOBAL := 'g'

  /** Symbolic link, character device, block device, FIFO. */
  const SPECIAL_TYPES := "2346"

  /** The bits of the header's mode above its permissions, of the 32 that a file mode has:
      a directory is 0040000; the others are FIFO, character device, block device, symbolic
      link and socket. */
  function TypeBits(mode: int): int {
    var m := mode % 0x1_0000_0000;
    m - m % 4096
  }

  const DIRECTORY_BITS := 16384
  const SPECIAL_BITS := [4096, 8192, 24576, 40960, 49152]

  datatype Kind = Regular | Directory | OtherKind

  /** header.FileInfo() lets both the typeflag and the mode speak, and a directory by
      either of them is one. Whatever neither of them knows is a regular file. */
  function KindOf(e: Entry): Kind {
    if e.typeflag == TYPE_DIR || TypeBits(e.mode) == DIRECTORY_BITS then Directory
    else if e.typeflag in SPECIAL_TYPES || TypeBits(e.mode) in SPECIAL_BITS then OtherKind
    else Regular
  }

  /** What can be read behind a header: the reader takes a global header's records away,
      and nothing belongs to links, devices and directories. */
  function Content(e: Entry): Bytes {
    if e.typeflag in SPECIAL_TYPES || e.typeflag == TYPE_LINK || e.typeflag == TYPE_DIR || e.typeflag == TYPE_GLOBAL
    then "" else e.data
  }

  /** machine.ExtractedConfig: not there, not decodable, or a stream of entries that
      ends properly or breaks off. */
  datatype Snapshot = Absent | Undecodable | Stream(entries: seq<Entry>, intact: bool)

  datatype RestoreError = BadEncoding | BrokenStream | NoRoot | UnsafeEntry | ForeignEntry
                        | RootNotDirectory | UnsupportedType | StoreFailed | DirFailed

  // ----- restore: what the loop makes of one entry

  datatype Reading = Refused(error: RestoreError) | RootSeen | Wants(write: Write)

  function Read(root: string, e: Entry): Reading {
    match Judge(root, e.name)
    case Unsafe => Refused(UnsafeEntry)
    case Foreign => Refused(ForeignEntry)
    case RootItself => if KindOf(e).Directory? then RootSeen else Refused(RootNotDirectory)
    case Below(p) =>
      match KindOf(e)
      case OtherKind => Refused(UnsupportedType)
      case Directory => Wants(MakeDir(p, Perm(e.mode)))
      case Regular => Wants(PutFile(p, Perm(e.mode), Content(e)))
  }

  predicate Accepted(root: string, e: Entry) { !Read(root, e).Refused? }

  predicate AllAccepted(root: string, es: seq<Entry>) { forall e :: e in es ==> Accepted(root, e) }

  lemma WantedIsUsable(root: string, e: Entry)
    requires Proper(root) && Read(root, e).Wants?
    ensures var w := Read(root, e).write; Usable(w) && w.path != [] && AllProper(w.path)
  {
    AcceptedStaysBelow(root, e.name);
  }

  /** The writes that the entries ask for, refused entries asking for none. */
  function Writes(root: string, es: seq<Entry>): (ws: seq<Write>)
    requires Proper(root)
    ensures AllUsable(ws)
  {
    if es == [] then []
    else
      var n := |es| - 1;
      var v := Read(root, es[n]);
      if v.Wants? then
        WantedIsUsable(root, es[n]);
        Writes(root, es[..n]) + [v.write]
      else Writes(root, es[..n])
  }

  lemma WritesSnoc(root: string, es: seq<Entry>, e: Entry)
    requires Proper(root)
    ensures var v := Read(root, e);
            Writes(root, es + [e]) == if v.Wants? then Writes(root, es) + [v.write] else Writes(root, es)
  {
  }

  datatype Ending = Done | Failed(error: RestoreError)

  /** A restore of the entries that failed did so after exactly the writes of the first
      n of them; the last of those writes, and only that one, may be partial. */
  ghost predicate StopsAt(root: string, es: seq<Entry>, intact: bool, faults: nat -> Fault,
                          before: Disk, after: Disk, error: RestoreError, n: nat)
    requires Proper(root) && n <= |es|
  {
    var o := Replay(before, Writes(root, es[..n]), faults);
    && o.disk == after
    && AllAccepted(root, es[..n])
    && (o.ok <==> error != StoreFailed)
    && (o.ok && n < |es| ==> Read(root, es[n]) == Refused(error))
    && (o.ok && n == |es| ==> if intact then error == NoRoot && es == [] else error == BrokenStream)
  }

  /** The first i entries have been accepted and written. */
  ghost predicate Through(root: string, es: seq<Entry>, i: nat, faults: nat -> Fault,
                          before: Disk, after: Disk, writes: nat)
    requires Proper(root) && i <= |es|
  {
    && AllAccepted(root, es[..i])
    && writes == |Writes(root, es[..i])|
    && Replay(before, Writes(root, es[..i]), faults) == Outcome(after, true)
  }

  lemma NothingRead(root: string, es: seq<Entry>, faults: nat -> Fault, before: Disk)
    requires Proper(root)
    ensures Through(root, es, 0, faults, before, before, 0)
  {
  }

  /** All entries have been written: it depends on the stream what that is worth. */
  lemma AllRead(root: string, es: seq<Entry>, intact: bool, faults: nat -> Fault,
                before: Disk, after: Disk, writes: nat)
    requires Proper(root) && Through(root, es, |es|, faults, before, after, writes)
    ensures AllAccepted(root, es) && Replay(before, Writes(root, es), faults) == Outcome(after, true)
    ensures !intact ==> StopsAt(root, es, intact, faults, before, after, BrokenStream, |es|)
    ensures intact && es == [] ==> StopsAt(root, es, intact, faults, before, after, NoRoot, |es|)
  {
    assert es[..|es|] == es;
    hide Read, Attempt, Proper;
  }

  lemma NextEntry(root: string, es: seq<Entry>, intact: bool, i: nat, faults: nat -> Fault,
                  before: Disk, after: Disk, writes: nat)
    requires Proper(root) && i < |es| && Through(root, es, i, faults, before, after, writes)
    ensures var v := Read(root, es[i]);
            && (v.Refused? ==> StopsAt(root, es, intact, faults, before, after, v.error, i))
            && (v.RootSeen? ==> Through(root, es, i + 1, faults, before, after, writes))
            && (v.Wants? ==>
                  && Usable(v.write)
                  && var o := Attempt(after, v.write, faults(writes));
                     if o.ok then Through(root, es, i + 1, faults, before, o.disk, writes + 1)
                     else StopsAt(root, es, intact, faults, before, o.disk, StoreFailed, i + 1))
  {
    var v := Read(root, es[i]);
    assert es[..i + 1] == es[..i] + [es[i]];
    WritesSnoc(root, es[..i], es[i]);
    if v.Wants? {
      WantedIsUsable(root, es[i]);
    }
    AcceptedNext(root, es, i);
    hide Read, Attempt, Proper, Usable, Writes, AllAccepted;
    if v.Wants? {
      ReplaySnoc(before, Writes(root, es[..i]), v.write, faults);
    }
  }

  lemma AcceptedNext(root: string, es: seq<Entry>, i: nat)
    requires i < |es|
    ensures AllAccepted(root, es[..i + 1]) <==> AllAccepted(root, es[..i]) && Accepted(root, es[i])
  {
    hide Accepted;
    assert es[..i + 1] == es[..i] + [es[i]];
    assert forall e :: e in es[..i + 1] <==> e in es[..i] || e == es[i];
  }

  lemma ReplaySnoc(before: Disk, ws: seq<Write>, w: Write, faults: nat -> Fault)
    requires AllUsable(ws) && Usable(w)
    ensures AllUsable(ws + [w])
    ensures var o := Replay(before, ws, faults);
            Replay(before, ws + [w], faults) == if o.ok then Attempt(o.disk, w, faults(|ws|)) else o
  {
    hide Attempt, Usable;
    assert (ws + [w])[..|ws|] == ws;
  }

  lemma {:induction false} WritesPrefix(root: string, es: seq<Entry>, n: nat)
    requires Proper(root) && n <= |es|
    ensures Writes(root, es[..n]) <= Writes(root, es)
    decreases |es| - n
  {
    if n < |es| {
      WritesPrefix(root, es, n + 1);
      assert es[..n + 1][..n] == es[..n];
    } else {
      assert es[..n] == es;
    }
  }

  /** Every write targets a path of proper names below the machine directory. */
  lemma {:induction false} WritesStayBelow(root: string, es: seq<Entry>, w: Write)
    requires Proper(root) && w in Writes(root, es)
    ensures w.path != [] && AllProper(w.path)
    ensures exists e :: e in es && Read(root, e) == Wants(w)
  {
    var n := |es| - 1;
    if w in Writes(root, es[..n]) {
      WritesStayBelow(root, es[..n], w);
    } else {
      WantedIsUsable(root, es[n]);
      assert es[n] in es;
    }
  }

  /** What a restore into an empty directory needs, read off the archive: an unbroken
      stream with an entry, every entry accepted, no path wanted as file and directory. */
  predicate Restorable(root: string, es: seq<Entry>, intact: bool)
    requires Proper(root)
  {
    intact && es != [] && AllAccepted(root, es) && ConflictFree(Writes(root, es))
  }

  lemma StopsOnlyIfNotRestorable(root: string, es: seq<Entry>, intact: bool, faults: nat -> Fault,
                                 after: Disk, error: RestoreError, n: nat)
    requires Proper(root) && n <= |es|
    requires StopsAt(root, es, intact, faults, map[], after, error, n)
    ensures !(Restorable(root, es, intact) && AllHealthy(faults, |Writes(root, es)|))
  {
    var us, ws := Writes(root, es[..n]), Writes(root, es);
    WritesPrefix(root, es, n);
    ReplaySucceeds(us, faults);
    if ConflictFree(ws) && AllHealthy(faults, |ws|) {
      assert forall k :: 0 <= k < |us| ==> us[k] == ws[k];
      assert ConflictFree(us);
    }
    if n < |es| {
      assert es[n] in es;
    }
  }

  /** The directory of one machine, as os.Root gives access to it. */
  class MachineDir {
    var nodes: Disk

    constructor ()
      ensures nodes == map[]
    {
      nodes := map[];
    }

    /** os.Root.MkdirAll. */
    method MkdirAll(p: Path, mode: Mode, fault: Fault) returns (ok: bool)
      modifies this
      ensures ok <==> DirsAlong(old(nodes), p) && !fault.MkdirFails?
      ensures nodes == if !DirsAlong(old(nodes), p) then old(nodes)
                       else if fault.MkdirFails? then MkdirTo(old(nodes), p, fault.made, mode)
                       else DiskWrites.MkdirAll(old(nodes), p, mode)
    {
      ok := DirsAlong(nodes, p);
      if ok {
        nodes := MkdirTo(nodes, p, if fault.MkdirFails? then fault.made else |p|, mode);
        ok := !fault.MkdirFails?;
      }
    }

    /** What the loop does with an accepted entry: create the directory, or create the
        parents, open the file with O_CREATE|O_TRUNC and copy the data. */
    method Write(w: Write, fault: Fault) returns (ok: bool)
      requires Usable(w)
      modifies this
      ensures Outcome(nodes, ok) == Attempt(old(nodes), w, fault)
    {
      if w.MakeDir? {
        if fault.OpenFails? || fault.CopyFails? {
          return false;
        }
        ok := MkdirAll(w.path, w.mode, fault);
        return;
      }
      ok := MkdirAll(Parent(w.path), PARENT_MODE, fault);
      if !ok {
        return;
      }
      if fault.OpenFails? || (w.path in nodes && !nodes[w.path].File?) {
        return false;
      }
      var mode := if w.path in nodes then nodes[w.path].mode else w.mode;
      nodes := nodes[w.path := File(mode, "")];
      var copied := if fault.CopyFails? && fault.kept < |w.data| then w.data[..fault.kept] else w.data;
      nodes := nodes[w.path := File(mode, copied)];
      return fault.Healthy?;
    }

    /** The loop of restoreMachineDir over the archive; faults(k) is the fate of the
        k-th write. */
    method RestoreEntries(root: string, es: seq<Entry>, intact: bool, faults: nat -> Fault)
      returns (r: Ending, ghost n: nat)
      requires Proper(root)
      modifies this
      ensures n <= |es|
      ensures r.Done? ==> intact && es != [] && AllAccepted(root, es)
                          && Replay(old(nodes), Writes(root, es), faults) == Outcome(nodes, true)
      ensures r.Failed? ==> StopsAt(root, es, intact, faults, old(nodes), nodes, r.error, n)
    {
      hide Through, StopsAt, Read, Attempt, Replay, Writes, AllAccepted, Proper, Usable;
      NothingRead(root, es, faults, nodes);
      var sawArchiveRoot := false;
      var writes := 0;
      var i := 0;
      while i < |es|
        invariant 0 <= i <= |es|
        invariant sawArchiveRoot <==> i > 0
        invariant Through(root, es, i, faults, old(nodes), nodes, writes)
      {
        NextEntry(root, es, intact, i, faults, old(nodes), nodes, writes);
        match Read(root, es[i]) {
          case Refused(error) => return Failed(error), i;
          case RootSeen =>
          case Wants(write) =>
            var ok := Write(write, faults(writes));
            if !ok {
              return Failed(StoreFailed), i + 1;
            }
            writes := writes + 1;
        }
        sawArchiveRoot := true;
        i := i + 1;
      }
      AllRead(root, es, intact, faults, old(nodes), nodes, writes);
      return if !intact then Failed(BrokenStream) else if !sawArchiveRoot then Failed(NoRoot) else Done, i;
    }

    /** restoreMachineDir. dirOk, rootOk: the machine directory could be created, and be
        rootOk for the entries. */
    method Restore(root: string, snapshot: Snapshot, dirOk: bool, rootOk: bool, faults: nat -> Fault)
      returns (r: Ending)
      requires Proper(root)
      modifies this
      ensures !dirOk ==> r == Failed(DirFailed) && nodes == old(nodes)
      ensures dirOk && snapshot.Absent? ==> r == Done && nodes == old(nodes)
      ensures dirOk && snapshot.Undecodable? ==> r == Failed(BadEncoding) && nodes == old(nodes)
      ensures dirOk && snapshot.Stream? && !rootOk ==> r == Failed(DirFailed) && nodes == old(nodes)
      ensures snapshot.Stream? && r.Done? ==>
                && dirOk && rootOk && snapshot.intact && snapshot.entries != [] && AllAccepted(root, snapshot.entries)
                && Replay(old(nodes), Writes(root, snapshot.entries), faults) == Outcome(nodes, true)
      ensures dirOk && rootOk && snapshot.Stream? && r.Failed? ==>
                exists n: nat | n <= |snapshot.entries| ::
                  StopsAt(root, snapshot.entries, snapshot.intact, faults, old(nodes), nodes, r.error, n)
      ensures snapshot.Stream? && old(nodes) == map[] ==>
                var ws := Writes(root, snapshot.entries);
                && (r.Done? <==> dirOk && rootOk && Restorable(root, snapshot.entries, snapshot.intact)
                                 && AllHealthy(faults, |ws|))
                && (r.Done? ==> Shows(ws, nodes))
    {
      if !dirOk {
        return Failed(DirFailed);
      }
      match snapshot
      case Absent => return Done;
      case Undecodable => return Failed(BadEncoding);
      case Stream(es, intact) =>
        if !rootOk {
          return Failed(DirFailed);
        }
        ghost var n: nat;
        r, n := RestoreEntries(root, es, intact, faults);
        ReplaySucceeds(Writes(root, es), faults);
        if old(nodes) == map[] && r.Failed? {
          StopsOnlyIfNotRestorable(root, es, intact, faults, nodes, r.error, n);
        }
    }
  }
}
