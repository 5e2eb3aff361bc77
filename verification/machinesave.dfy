/** Saving a machine directory, and the round trip with its restore. */
module MachineSave {
  import opened Text
  import opened Orders
  import opened UnixPath
  import opened DiskWrites
  import opened MachineArchive

  /** Files and directories of these names are passed over by the walk. */
  predicate Skipped(name: string) {
    HasSuffix(name, ".iso") || HasSuffix(name, ".tar.gz") || HasSuffix(name, ".vmdk") || HasSuffix(name, ".img")
  }

  /** A directory tree: proper names, and every node inside directories. */
  ghost predicate WellFormed(d: Disk) {
    forall p :: p in d ==> p != [] && AllProper(p) && forall i :: 0 < i < |p| ==> p[..i] in d && d[p[..i]].Dir?
  }

  predicate Archived(p: Path) { p != [] && !Skipped(Last(p)) }

  function ArchivedPaths(d: Disk): set<Path> { set p | p in d && Archived(p) }

  /** The walk fails at a symbolic link or special file that is not passed over. */
  predicate Archivable(d: Disk) { forall p :: p in ArchivedPaths(d) ==> d[p].File? || d[p].Dir? }

  /** What is passed over, read as a stem and a suffix. */
  lemma SkippedExactly(name: string)
    ensures Skipped(name) <==> exists stem: string ::
              name == stem + ".iso" || name == stem + ".tar.gz" || name == stem + ".vmdk" || name == stem + ".img"
  {
    SuffixExactly(name, ".iso");
    SuffixExactly(name, ".tar.gz");
    SuffixExactly(name, ".vmdk");
    SuffixExactly(name, ".img");
  }

  lemma SuffixExactly(s: string, suffix: string)
    ensures HasSuffix(s, suffix) <==> exists stem: string :: s == stem + suffix
  {
    if HasSuffix(s, suffix) {
      assert s == s[..|s| - |suffix|] + suffix;
    }
  }

  /** The archive path of what filepath.Walk visits as source/p. */
  function HeaderName(source: string, p: Path): string {
    JoinPath(Base(source), TrimPrefix(source + ['/'] + Join(p, '/'), source))
  }

  function EntryFor(root: string, p: Path, node: Node): Entry {
    var name := Join([root] + p, '/');
    match node
    case File(mode, data) => Entry(name, TYPE_REG, mode, data)
    case Dir(mode) => Entry(name, TYPE_DIR, mode, "")
    case _ => Entry(name, SPECIAL_TYPES[0], 0, "")
  }

  function Entries(root: string, d: Disk, ps: seq<Path>): seq<Entry>
    requires forall p :: p in ps ==> p in d
  {
    seq(|ps|, i requires 0 <= i < |ps| => EntryFor(root, ps[i], d[ps[i]]))
  }

  /** The archived paths in the order of the walk. */
  function WalkOrder(d: Disk): (ps: seq<Path>)
    ensures Ascending(PathLess, ps) && forall p :: p in ps <==> p in ArchivedPaths(d)
  {
    PathLessIsStrictTotal();
    Listing(PathLess, ArchivedPaths(d))
  }

  /** What a save writes: one entry for every archived path, in the order of the walk. */
  function ArchiveOf(root: string, d: Disk): seq<Entry> { Entries(root, d, WalkOrder(d)) }

  lemma SplitDoubled(root: string, p: Path)
    requires Proper(root) && p != [] && AllProper(p)
    ensures Split(root + ['/'] + (['/'] + Join(p, '/')), '/') == [root, ""] + p
  {
    var tail := ['/'] + Join(p, '/');
    assert tail == "" + ['/'] + Join(p, '/');
    CleanProper(p);
    SplitAround("", '/', Join(p, '/'));
    SplitWithoutSeparator(root, '/');
    SplitAround(root, '/', tail);
    assert [root] + ([""] + p) == [root, ""] + p;
  }

  lemma ReduceDoubled(root: string, p: Path)
    requires Proper(root) && AllProper(p)
    ensures Reduce([root, ""] + p, false, []) == [root] + p
  {
    var parts := [root, ""] + p;
    assert forall s :: s in parts ==> s == root || s == "" || s in p;
    ReduceWithoutDotDot(parts, false, []);
    NamedAppend([root, ""], p);
    NamedProper(p);
    assert [root, ""][1..] == [""] && Named([root, ""]) == [root];
    assert [] + Named(parts) == Named(parts);
  }

  lemma JoinPathDoubled(root: string, p: Path)
    requires Proper(root) && p != [] && AllProper(p)
    ensures JoinPath(root, ['/'] + Join(p, '/')) == Join([root] + p, '/')
  {
    hide Reduce, Split, Join;
    var path := root + ['/'] + (['/'] + Join(p, '/'));
    SplitDoubled(root, p);
    ReduceDoubled(root, p);
    assert path[0] == root[0] && root[0] in root;
  }

  lemma HeaderNameMeaning(source: string, p: Path)
    requires Proper(Base(source)) && p != [] && AllProper(p)
    ensures HeaderName(source, p) == Join([Base(source)] + p, '/')
  {
    var tail := ['/'] + Join(p, '/');
    assert source + ['/'] + Join(p, '/') == source + tail;
    assert TrimPrefix(source + tail, source) == tail;
    JoinPathDoubled(Base(source), p);
  }

  function Keep(ps: seq<Path>): seq<Path> {
    if ps == [] then []
    else
      var n := |ps| - 1;
      Keep(ps[..n]) + if Archived(ps[n]) then [ps[n]] else []
  }

  lemma {:induction false} KeepOrder(ps: seq<Path>)
    requires Ascending(PathLess, ps)
    ensures Ascending(PathLess, Keep(ps))
    ensures forall p :: p in Keep(ps) <==> p in ps && Archived(p)
  {
    if ps != [] {
      var n := |ps| - 1;
      KeepOrder(ps[..n]);
      assert forall p :: p in ps <==> p in ps[..n] || p == ps[n];
      forall p | p in ps[..n] ensures PathLess(p, ps[n]) {
        var i :| 0 <= i < n && ps[i] == p;
      }
    }
  }

  /** The tar writer that the walk appends to. */
  class TarWriter {
    var entries: seq<Entry>

    constructor ()
      ensures entries == []
    {
      entries := [];
    }

    method Append(e: Entry)
      modifies this
      ensures entries == old(entries) + [e]
    {
      entries := entries + [e];
    }
  }

  /** The walk has passed the first i visits and appended their entries. */
  ghost predicate Walked(root: string, d: Disk, visits: seq<Path>, i: nat, before: seq<Entry>, after: seq<Entry>)
    requires i <= |visits| && forall p :: p in visits ==> p in d
  {
    && (forall k :: 0 <= k < i && Archived(visits[k]) ==> d[visits[k]].File? || d[visits[k]].Dir?)
    && (forall p :: p in Keep(visits[..i]) ==> p in d)
    && after == before + Entries(root, d, Keep(visits[..i]))
  }

  lemma NextVisit(root: string, d: Disk, visits: seq<Path>, i: nat, before: seq<Entry>, after: seq<Entry>)
    requires i < |visits| && forall p :: p in visits ==> p in d
    requires Walked(root, d, visits, i, before, after)
    ensures var p := visits[i];
            if !Archived(p) then Walked(root, d, visits, i + 1, before, after)
            else if d[p].File? || d[p].Dir? then
              Walked(root, d, visits, i + 1, before, after + [EntryFor(root, p, d[p])])
            else !Archivable(d)
  {
    var p := visits[i];
    assert p in visits && visits[..i + 1][..i] == visits[..i];
    if Archived(p) {
      assert p in ArchivedPaths(d);
    }
  }

  /** No call of the walk fails: none at the root, and none at any node. */
  predicate WalkWorks(d: Disk, fails: Path -> bool) { !fails([]) && forall p :: p in d ==> !fails(p) }

  /** The visiting function of the walk at p; fails says that reading p, or writing its
      entry, fails. */
  method Visit(source: string, p: Path, node: Node, tar: TarWriter, fails: bool) returns (ok: bool)
    requires Proper(Base(source)) && p != [] && AllProper(p)
    modifies tar
    ensures ok <==> !fails && (Archived(p) ==> node.File? || node.Dir?)
    ensures ok ==> tar.entries ==
                   if Archived(p) then old(tar.entries) + [EntryFor(Base(source), p, node)] else old(tar.entries)
  {
    if fails {
      return false;
    }
    if Skipped(Last(p)) {
      return true;
    }
    if node.Symlink? || node.Special? {
      return false;
    }
    HeaderNameMeaning(source, p);
    var name := HeaderName(source, p);
    tar.Append(if node.Dir? then Entry(name, TYPE_DIR, node.mode, "") else Entry(name, TYPE_REG, node.mode, node.data));
    return true;
  }

  /** The walk over the nodes in this order. */
  method Walk(source: string, d: Disk, visits: seq<Path>, tar: TarWriter, fails: Path -> bool) returns (ok: bool)
    requires Proper(Base(source)) && forall p :: p in visits ==> p in d && p != [] && AllProper(p)
    modifies tar
    ensures ok ==> Walked(Base(source), d, visits, |visits|, old(tar.entries), tar.entries)
    ensures ok ==> forall p :: p in visits ==> !fails(p)
    ensures !ok ==> !Archivable(d) || exists p :: p in visits && fails(p)
  {
    ghost var root := Base(source);
    var i := 0;
    while i < |visits|
      invariant 0 <= i <= |visits|
      invariant Walked(root, d, visits, i, old(tar.entries), tar.entries)
      invariant forall k :: 0 <= k < i ==> !fails(visits[k])
    {
      hide Walked, Archivable, Archived, EntryFor, AllProper;
      var p := visits[i];
      assert p in visits;
      NextVisit(root, d, visits, i, old(tar.entries), tar.entries);
      ok := Visit(source, p, d[p], tar, fails(p));
      if !ok {
        return;
      }
      i := i + 1;
    }
    return true;
  }

  /** addDirToArchive: filepath.Walk, in path order. */
  method AddDirToArchive(source: string, d: Disk, tar: TarWriter, fails: Path -> bool) returns (ok: bool)
    requires Proper(Base(source)) && WellFormed(d)
    modifies tar
    ensures ok <==> Archivable(d) && WalkWorks(d, fails)
    ensures ok ==> tar.entries == old(tar.entries) + ArchiveOf(Base(source), d)
  {
    if fails([]) {
      return false;
    }
    PathLessIsStrictTotal();
    var visits := Listing(PathLess, d.Keys);
    assert forall p :: p in visits <==> p in d;
    hide StrictTotal, Walked, Archivable;
    ok := Walk(source, d, visits, tar, fails);
    if ok {
      WalkComplete(Base(source), d, visits, old(tar.entries), tar.entries);
    }
  }

  lemma WalkComplete(root: string, d: Disk, visits: seq<Path>, before: seq<Entry>, after: seq<Entry>)
    requires Ascending(PathLess, visits) && forall p :: p in visits <==> p in d
    requires Walked(root, d, visits, |visits|, before, after)
    ensures Archivable(d) && after == before + ArchiveOf(root, d)
  {
    assert visits[..|visits|] == visits;
    PathLessIsStrictTotal();
    KeepOrder(visits);
    AscendingUnique(PathLess, Keep(visits), WalkOrder(d));
    forall p | p in ArchivedPaths(d) ensures d[p].File? || d[p].Dir? {
      assert p in visits;
    }
  }
}
