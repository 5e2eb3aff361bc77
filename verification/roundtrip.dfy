/** Restoring what was saved: exactly when it works, and what comes back. */
module RoundTrip {
  import opened Orders
  import opened UnixPath
  import opened DiskWrites
  import opened ArchiveNames
  import opened MachineArchive
  import opened MachineSave

  /** What a caller can check before saving: the machine's directory name and every
      segment of every archived path free of ".." and of backslashes. */
  predicate NamesPortable(root: string, d: Disk) {
    Portable(root) && forall p :: p in ArchivedPaths(d) ==> forall s :: s in p ==> Portable(s)
  }

  function WriteFor(p: Path, node: Node): Write {
    match node
    case File(mode, data) => PutFile(p, Perm(mode), data)
    case Dir(mode) => MakeDir(p, Perm(mode))
    case _ => MakeDir(p, 0)
  }

  function Saved(node: Node): Node {
    match node
    case File(mode, data) => File(Perm(mode), data)
    case Dir(mode) => Dir(Perm(mode))
    case _ => node
  }

  /** q is the first archived path, in the order of the walk, at or below p. */
  ghost predicate LeadsTo(d: Disk, p: Path, q: Path) {
    q in ArchivedPaths(d) && p <= q && forall r :: r in ArchivedPaths(d) && p <= r && r != q ==> PathLess(q, r)
  }

  lemma LeaderExists(d: Disk, p: Path, q: Path)
    requires q in ArchivedPaths(d) && p <= q
    ensures exists r :: LeadsTo(d, p, r)
  {
    PathLessIsStrictTotal();
    var below := set r | r in ArchivedPaths(d) && p <= r;
    assert q in below;
    LeastExists(PathLess, below);
    var r :| IsLeast(PathLess, r, below);
    assert LeadsTo(d, p, r);
  }

  /** The paths that come back: archived ones and the directories above them. */
  function Kept(d: Disk): set<Path> {
    set q, i | q in ArchivedPaths(d) && 0 < i <= |q| :: q[..i]
  }

  lemma KeptMeaning(d: Disk, p: Path)
    ensures p in Kept(d) <==> p != [] && exists q :: q in ArchivedPaths(d) && p <= q
  {
    if p != [] {
      if q :| q in ArchivedPaths(d) && p <= q {
        assert p == q[..|p|];
      }
    }
  }

  lemma AboveArchived(d: Disk, p: Path, q: Path)
    requires WellFormed(d) && q in ArchivedPaths(d) && p <= q && p != []
    ensures p in d && (p == q || d[p].Dir?)
    ensures Archived(p) ==> p in ArchivedPaths(d)
  {
    assert q in d && p == q[..|p|];
    if |p| < |q| {
      assert q[..|p|] in d;
    } else {
      assert q[..|q|] == q;
    }
  }

  /** A directory whose name the walk passes over comes back only for the sake of what
      is below it, with the mode that the first entry below it implies. */
  ghost function FilteredNode(d: Disk, p: Path): Node
    requires WellFormed(d) && p in Kept(d)
  {
    if p in ArchivedPaths(d) then Saved(d[p])
    else
      KeptMeaning(d, p);
      var below :| below in ArchivedPaths(d) && p <= below;
      LeaderExists(d, p, below);
      var q :| LeadsTo(d, p, q);
      Dir(CreatedMode(WriteFor(q, d[q]), p))
  }

  /** The saved tree without what the walk passes over. */
  ghost function FilteredTree(d: Disk): Disk
    requires WellFormed(d)
  {
    map p | p in Kept(d) :: FilteredNode(d, p)
  }

  function WritesFor(d: Disk, ps: seq<Path>): seq<Write>
    requires forall p :: p in ps ==> p in d
  {
    seq(|ps|, i requires 0 <= i < |ps| => WriteFor(ps[i], d[ps[i]]))
  }

  /** An entry of the save is read back as the write of its node, if its name is portable. */
  lemma EntryReadsBack(root: string, p: Path, node: Node)
    requires Proper(root) && p != [] && AllProper(p) && (node.File? || node.Dir?)
    ensures Read(root, EntryFor(root, p, node)) ==
            if Portable(root) && (forall s :: s in p ==> Portable(s)) then Wants(WriteFor(p, node))
            else Refused(UnsafeEntry)
  {
    assert TypeBits(EntryFor(root, p, node).mode) == 0;
    hide Judge, Portable, Proper, TypeBits;
    SavedNameIsJudged(root, p);
  }

  lemma EntriesSnoc(root: string, d: Disk, us: seq<Path>, p: Path)
    requires p in d && forall u :: u in us ==> u in d
    ensures Entries(root, d, us + [p]) == Entries(root, d, us) + [EntryFor(root, p, d[p])]
    ensures WritesFor(d, us + [p]) == WritesFor(d, us) + [WriteFor(p, d[p])]
  {
  }

  lemma {:induction false} ArchiveReadsBack(root: string, d: Disk, ps: seq<Path>)
    requires Proper(root) && WellFormed(d) && Archivable(d) && NamesPortable(root, d)
    requires forall p :: p in ps ==> p in ArchivedPaths(d)
    ensures AllAccepted(root, Entries(root, d, ps))
    ensures Writes(root, Entries(root, d, ps)) == WritesFor(d, ps)
  {
    if ps != [] {
      var us, p := ps[..|ps| - 1], ps[|ps| - 1];
      assert p in ps && ps == us + [p];
      ArchiveReadsBack(root, d, us);
      EntriesSnoc(root, d, us, p);
      EntryReadsBack(root, p, d[p]);
      WritesSnoc(root, Entries(root, d, us), EntryFor(root, p, d[p]));
    }
  }

  lemma TreeHasNoConflict(d: Disk, ps: seq<Path>)
    requires WellFormed(d) && Archivable(d) && forall p :: p in ps ==> p in ArchivedPaths(d)
    ensures ConflictFree(WritesFor(d, ps)) && AllUsable(WritesFor(d, ps))
  {
    var ws := WritesFor(d, ps);
    forall i, j | 0 <= i < |ws| && 0 <= j < |ws| && ws[i].PutFile? ensures !NeedsDir(ws[j], ws[i].path) {
      assert ps[i] in ps && ps[j] in ps;
      if ps[i] <= ps[j] {
        AboveArchived(d, ps[i], ps[j]);
      }
    }
  }

  lemma IndexOf(d: Disk, q: Path) returns (k: nat)
    requires q in ArchivedPaths(d)
    ensures k < |WalkOrder(d)| && WalkOrder(d)[k] == q
  {
    assert q in WalkOrder(d);
    k :| 0 <= k < |WalkOrder(d)| && WalkOrder(d)[k] == q;
  }

  /** Nothing archived comes before q among what touches p, if q touches p first. */
  lemma FirstIsLeast(d: Disk, p: Path, j: nat, q: Path)
    requires First(WritesFor(d, WalkOrder(d)), p, j)
    requires q in ArchivedPaths(d) && p <= q && (q == WalkOrder(d)[j] || PathLess(q, WalkOrder(d)[j]))
    ensures q == WalkOrder(d)[j]
  {
    var ps, ws := WalkOrder(d), WritesFor(d, WalkOrder(d));
    PathLessIsStrictTotal();
    var k := IndexOf(d, q);
    assert Reaches(ws[k], p);
  }

  /** The write that first touches p is that of p itself if p is archived, and of the
      first archived path below p otherwise. */
  lemma FirstTouch(d: Disk, p: Path, j: nat)
    requires WellFormed(d) && First(WritesFor(d, WalkOrder(d)), p, j)
    ensures p in Kept(d)
    ensures Archived(p) ==> WalkOrder(d)[j] == p && p in ArchivedPaths(d)
    ensures forall q :: LeadsTo(d, p, q) ==> WalkOrder(d)[j] == q
  {
    var first := WalkOrder(d)[j];
    assert first in WalkOrder(d) && p <= first && p != [];
    KeptMeaning(d, p);
    AboveArchived(d, p, first);
    if Archived(p) {
      if p != first {
        StringLessIsStrictTotal();
        PrefixFirst(StringLess, p, first);
      }
      FirstIsLeast(d, p, j, p);
    }
    forall q | LeadsTo(d, p, q) ensures first == q {
      FirstIsLeast(d, p, j, q);
    }
  }

  lemma ShownNode(d: Disk, p: Path, j: nat)
    requires WellFormed(d) && Archivable(d) && First(WritesFor(d, WalkOrder(d)), p, j)
    ensures p in Kept(d)
    ensures var node := FilteredNode(d, p);
            (node.File? || node.Dir?) && node.mode == CreatedMode(WritesFor(d, WalkOrder(d))[j], p)
  {
    FirstTouch(d, p, j);
    assert WalkOrder(d)[j] in WalkOrder(d);
  }

  lemma KeptIsTouched(d: Disk, p: Path)
    requires p in Kept(d)
    ensures exists j: nat :: First(WritesFor(d, WalkOrder(d)), p, j)
  {
    KeptMeaning(d, p);
    var q :| q in ArchivedPaths(d) && p <= q;
    var k := IndexOf(d, q);
    FirstExists(WritesFor(d, WalkOrder(d)), p, k);
  }

  lemma LastPutIsShown(d: Disk, p: Path, j: nat)
    requires WellFormed(d) && Archivable(d) && LastPut(WritesFor(d, WalkOrder(d)), p, j)
    ensures p in Kept(d)
    ensures var node := FilteredNode(d, p); node.File? && node.data == WritesFor(d, WalkOrder(d))[j].data
  {
    assert WalkOrder(d)[j] in WalkOrder(d);
    KeptMeaning(d, p);
  }

  lemma ShownFileIsPut(d: Disk, p: Path)
    requires WellFormed(d) && Archivable(d) && p in Kept(d) && FilteredNode(d, p).File?
    ensures exists j: nat :: LastPut(WritesFor(d, WalkOrder(d)), p, j)
  {
    var k := IndexOf(d, p);
    LastPutExists(WritesFor(d, WalkOrder(d)), p, k);
  }

  lemma FilteredTreeIsShown(d: Disk)
    requires WellFormed(d) && Archivable(d)
    ensures Shows(WritesFor(d, WalkOrder(d)), FilteredTree(d))
  {
    var ws, t := WritesFor(d, WalkOrder(d)), FilteredTree(d);
    forall p | p in t ensures exists j: nat :: First(ws, p, j) { KeptIsTouched(d, p); }
    forall p, j: nat | First(ws, p, j)
      ensures p in t && (t[p].File? || t[p].Dir?) && t[p].mode == CreatedMode(ws[j], p)
    {
      ShownNode(d, p, j);
    }
    forall p, j: nat | LastPut(ws, p, j) ensures p in t && t[p].File? && t[p].data == ws[j].data {
      LastPutIsShown(d, p, j);
    }
    forall p | p in t && t[p].File? ensures exists j: nat :: LastPut(ws, p, j) { ShownFileIsPut(d, p); }
  }

  /** A saved tree can be restored exactly when every archived name is portable and
      anything was archived at all. */
  lemma SavedIsRestorable(root: string, d: Disk)
    requires Proper(root) && WellFormed(d) && Archivable(d)
    ensures Restorable(root, ArchiveOf(root, d), true) <==> NamesPortable(root, d) && ArchivedPaths(d) != {}
    ensures NamesPortable(root, d) ==> Writes(root, ArchiveOf(root, d)) == WritesFor(d, WalkOrder(d))
  {
    var ps, es := WalkOrder(d), ArchiveOf(root, d);
    if NamesPortable(root, d) {
      ArchiveReadsBack(root, d, ps);
      TreeHasNoConflict(d, ps);
      if q :| q in ArchivedPaths(d) {
        var _ := IndexOf(d, q);
      }
    } else if es != [] {
      assert ps[0] in ps;
      var q :| q in ArchivedPaths(d) && (Portable(root) ==> exists s :: s in q && !Portable(s));
      var k := IndexOf(d, q);
      EntryReadsBack(root, q, d[q]);
      assert es[k] in es;
    }
  }

  /** The round trip: save a tree, restore the archive into an empty directory. */
  method SaveThenRestore(source: string, d: Disk, fails: Path -> bool, tar: TarWriter, target: MachineDir)
    returns (saved: bool, r: Ending)
    requires Proper(Base(source)) && WellFormed(d)
    requires tar.entries == [] && target.nodes == map[]
    modifies tar, target
    ensures saved <==> Archivable(d) && WalkWorks(d, fails)
    ensures saved ==> (r.Done? <==> NamesPortable(Base(source), d) && ArchivedPaths(d) != {})
    ensures saved && r.Done? ==> target.nodes == FilteredTree(d)
    ensures saved && r.Done? ==> forall p :: p in ArchivedPaths(d) ==>
              p in target.nodes && ComesBackAs(d[p], target.nodes[p])
  {
    hide ComesBackAs, FilteredTree, WellFormed, ConflictFree, Shows, StopsAt;
    var root := Base(source);
    saved := AddDirToArchive(source, d, tar, fails);
    if !saved {
      return false, Done;
    }
    var es := tar.entries;
    assert es == ArchiveOf(root, d);
    SavedIsRestorable(root, d);
    var noFaults := (k: nat) => Healthy;
    assert AllHealthy(noFaults, |Writes(root, es)|);
    r := target.Restore(root, Stream(es, true), true, true, noFaults);
    if r.Done? {
      OnlyTheFilteredTree(root, d, target.nodes);
      AllNodesComeBack(d);
    }
  }

  lemma OnlyTheFilteredTree(root: string, d: Disk, e: Disk)
    requires Proper(root) && WellFormed(d) && Archivable(d) && NamesPortable(root, d)
    requires Shows(Writes(root, ArchiveOf(root, d)), e)
    ensures e == FilteredTree(d)
  {
    SavedIsRestorable(root, d);
    FilteredTreeIsShown(d);
    ShownOnce(WritesFor(d, WalkOrder(d)), e, FilteredTree(d));
  }

  /** What comes back, path by path: an archived node with its permissions and data; of
      the names passed over, only directories with something archived below them. */
  lemma FilteredTreeMeaning(d: Disk, p: Path)
    requires WellFormed(d) && Archivable(d)
    ensures var t := FilteredTree(d);
            && (p in t ==> p in d)
            && (p in d && Archived(p) ==> p in t && t[p] == Saved(d[p]))
            && (p in d && !Archived(p) ==>
                  (p in t <==> d[p].Dir? && exists q :: q in ArchivedPaths(d) && p < q)
                  && (p in t ==> t[p].Dir?))
  {
    KeptMeaning(d, p);
    if p in Kept(d) {
      var q :| q in ArchivedPaths(d) && p <= q;
      AboveArchived(d, p, q);
      assert !Archived(p) ==> p < q;
    }
    assert p in ArchivedPaths(d) ==> p <= p;
  }

  lemma FilteredAncestor(d: Disk, p: Path, i: nat)
    requires WellFormed(d) && Archivable(d) && p in FilteredTree(d) && 0 < i < |p|
    ensures p[..i] in FilteredTree(d) && FilteredTree(d)[p[..i]].Dir?
  {
    KeptMeaning(d, p);
    var q :| q in ArchivedPaths(d) && p <= q;
    KeptMeaning(d, p[..i]);
    AboveArchived(d, p[..i], q);
    FilteredTreeMeaning(d, p[..i]);
  }

  lemma FilteredArchived(d: Disk)
    requires WellFormed(d) && Archivable(d)
    ensures Archivable(FilteredTree(d)) && ArchivedPaths(FilteredTree(d)) == ArchivedPaths(d)
  {
    var t := FilteredTree(d);
    forall p
      ensures p in ArchivedPaths(t) <==> p in ArchivedPaths(d)
      ensures p in ArchivedPaths(t) ==> t[p].File? || t[p].Dir?
    {
      FilteredTreeMeaning(d, p);
    }
  }

  lemma FilteredTreeIsTree(d: Disk)
    requires WellFormed(d) && Archivable(d)
    ensures WellFormed(FilteredTree(d))
  {
    var t := FilteredTree(d);
    forall p | p in t
      ensures p != [] && AllProper(p) && forall i :: 0 < i < |p| ==> p[..i] in t && t[p[..i]].Dir?
    {
      FilteredTreeMeaning(d, p);
      forall i | 0 < i < |p| ensures p[..i] in t && t[p[..i]].Dir? { FilteredAncestor(d, p, i); }
    }
  }

  lemma SameEntries(root: string, d: Disk, t: Disk, ps: seq<Path>)
    requires forall p :: p in ps ==> p in d && p in t
    ensures Entries(root, d, ps) == Entries(root, t, ps) <==>
            forall p :: p in ps ==> EntryFor(root, p, d[p]) == EntryFor(root, p, t[p])
  {
    var es, fs := Entries(root, d, ps), Entries(root, t, ps);
    if es == fs {
      forall p | p in ps ensures EntryFor(root, p, d[p]) == EntryFor(root, p, t[p]) {
        var k :| 0 <= k < |ps| && ps[k] == p;
        assert es[k] == fs[k];
      }
    } else {
      var k :| 0 <= k < |ps| && es[k] != fs[k];
      assert ps[k] in ps;
    }
  }

  /** b is a as it comes back: of the same kind, with the same data and permissions. */
  predicate ComesBackAs(a: Node, b: Node) {
    && (a.File? <==> b.File?) && (a.Dir? <==> b.Dir?) && (a.File? || a.Dir?)
    && (a.File? ==> a.data == b.data) && LowNine(a.mode, b.mode)
    && (a.mode < 512 ==> a == b)
  }

  /** mode is what the first entry at or below p implies for a directory made on its way. */
  ghost predicate ModeImplied(d: Disk, p: Path, mode: int) {
    exists q :: LeadsTo(d, p, q) && if d[q].File? then mode == 480 else d[q].Dir? && LowNine(d[q].mode, mode)
  }

  /** Every archived node comes back as it was, but for set-id and sticky bits. A directory
      that was passed over comes back with mode 0740 if the first entry below it was a
      file, and otherwise with the permissions of that directory. */
  lemma NodesComeBack(d: Disk, p: Path)
    requires WellFormed(d) && Archivable(d) && p in FilteredTree(d)
    ensures p in d
    ensures Archived(p) ==> ComesBackAs(d[p], FilteredTree(d)[p])
    ensures !Archived(p) ==> FilteredTree(d)[p].Dir? && ModeImplied(d, p, FilteredTree(d)[p].mode)
  {
    FilteredTreeMeaning(d, p);
    if !Archived(p) {
      KeptMeaning(d, p);
      var below :| below in ArchivedPaths(d) && p <= below;
      LeaderExists(d, p, below);
      var q :| LeadsTo(d, p, q) && FilteredTree(d)[p] == Dir(CreatedMode(WriteFor(q, d[q]), p));
    }
  }

  lemma SecondEntry(root: string, d: Disk, p: Path)
    requires WellFormed(d) && Archivable(d) && p in ArchivedPaths(d)
    ensures p in FilteredTree(d)
    ensures EntryFor(root, p, FilteredTree(d)[p]) == EntryFor(root, p, d[p]) <==> d[p].mode < 512
  {
    FilteredTreeMeaning(d, p);
  }

  lemma AllNodesComeBack(d: Disk)
    requires WellFormed(d) && Archivable(d)
    ensures forall p :: p in ArchivedPaths(d) ==> p in FilteredTree(d) && ComesBackAs(d[p], FilteredTree(d)[p])
  {
    forall p | p in ArchivedPaths(d) ensures p in FilteredTree(d) && ComesBackAs(d[p], FilteredTree(d)[p]) {
      FilteredTreeMeaning(d, p);
      NodesComeBack(d, p);
    }
  }

  /** Saving the restored tree gives the same archive again, provided the archived
      modes are plain permissions (set-id and sticky bits do not come back). */
  lemma SecondSave(root: string, d: Disk)
    requires WellFormed(d) && Archivable(d)
    ensures ArchiveOf(root, FilteredTree(d)) == ArchiveOf(root, d) <==>
            forall p :: p in ArchivedPaths(d) ==> d[p].mode < 512
  {
    var t := FilteredTree(d);
    FilteredArchived(d);
    assert WalkOrder(t) == WalkOrder(d);
    forall p | p in ArchivedPaths(d)
      ensures p in t && (EntryFor(root, p, t[p]) == EntryFor(root, p, d[p]) <==> d[p].mode < 512)
    {
      SecondEntry(root, d, p);
    }
    hide EntryFor, FilteredTree, WellFormed, Archivable;
    SameEntries(root, d, t, WalkOrder(d));
  }
}
