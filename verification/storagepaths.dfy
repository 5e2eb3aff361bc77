/** Where a machine's files live: identifiers, names, and the removal of a machine
    directory (handlers/common.go, handlers/config.go). */
module StoragePaths {
  import opened Orders
  import opened Text
  import opened UnixPath
  import opened DiskWrites

  datatype Identifier = Name(s: string) | Invalid

  predicate HasControl(s: string) { exists i :: 0 <= i < |s| && IsControl(s[i]) }

  /** The part of the checks that makes a text usable as one path segment. */
  predicate Segment(s: string) {
    ByteLen(s) <= 255 && IsLocal(s) && Base(s) == s && s != "." && !ContainsAny(s, "/\\")
  }

  /** machinePathIdentifier; digest is the hexadecimal form of the first half of SHA-256. */
  function PathIdentifier(externalID: string, digest: string -> string): Identifier {
    if '\0' in externalID then Invalid
    else if !HasControl(externalID) && Segment(externalID) then Name(externalID)
    else if externalID == "" then Invalid
    else Name("legacy-" + digest(externalID))
  }

  /** machineDirectoryIdentifier. */
  function DirectoryIdentifier(externalID: string, id: string, digest: string -> string): Identifier {
    PathIdentifier(if externalID == "" then id else externalID, digest)
  }

  /** machineCommandName. */
  function CommandName(name: string, externalID: string, id: string): Identifier {
    var n := if name != "" then name else if externalID != "" then externalID else id;
    if n == "" || ByteLen(n) > 255 || n == "." || n == ".." || HasPrefix(n, "-") || !IsLocal(n) || Base(n) != n
       || ContainsAny(n, "/\\") || HasControl(n)
    then Invalid else Name(n)
  }

  /** The assumption on the digest: 32 hexadecimal digits. */
  ghost predicate HexDigest(digest: string -> string) {
    forall s :: |digest(s)| == 32 && forall c :: c in digest(s) ==> '0' <= c <= '9' || 'a' <= c <= 'f'
  }

  /** A local name without slash that is its own base is a proper path segment. */
  lemma SegmentIsProper(s: string)
    requires IsLocal(s) && Base(s) == s && s != "." && !ContainsAny(s, "/\\")
    ensures Proper(s)
  {
    assert forall i :: 0 <= i < |s| ==> s[i] !in "/\\";
    assert '/' in "/\\";
    if s == ".." {
      DotDotIsNotLocal();
    }
  }

  lemma DotDotIsNotLocal()
    ensures !IsLocal("..")
  {
  }

  /** A proper name without slash or backslash, at most 255 bytes long, is a segment. */
  lemma ProperIsSegment(s: string)
    requires Proper(s) && '\\' !in s && ByteLen(s) <= 255
    ensures Segment(s)
  {
    ProperIsLocal(s);
    assert forall i :: 0 <= i < |s| ==> s[i] != '/';
  }

  lemma LegacyIsSegment(d: string)
    requires |d| == 32 && forall c :: c in d ==> '0' <= c <= '9' || 'a' <= c <= 'f'
    ensures var s := "legacy-" + d; Segment(s) && !HasControl(s) && '\0' !in s && s != ""
  {
    var s := "legacy-" + d;
    assert forall c :: c in s ==> c in "legacy-" || c in d;
    assert forall c :: c in "legacy-" ==> c == '-' || 'a' <= c <= 'z';
    AsciiLen(s);
    assert s[0] == 'l';
    ProperIsSegment(s);
    forall i | 0 <= i < |s| ensures !IsControl(s[i]) { assert s[i] in s; }
  }

  /** A name that a directory can have, of at most 255 bytes, without backslash and control
      characters. */
  predicate UsableName(s: string) {
    && Proper(s) && '\\' !in s && ByteLen(s) <= 255
    && forall i :: 0 <= i < |s| ==> s[i] as int >= 32 && !(127 <= s[i] as int < 160)
  }

  lemma UsableExactly(s: string)
    ensures UsableName(s) <==> Segment(s) && !HasControl(s)
    ensures UsableName(s) <==> s != "" && ByteLen(s) <= 255 && s != "." && s != ".." && IsLocal(s) && Base(s) == s
                               && !ContainsAny(s, "/\\") && !HasControl(s)
  {
    if Segment(s) {
      SegmentIsProper(s);
      assert forall i :: 0 <= i < |s| ==> s[i] !in "/\\";
      assert '\\' in "/\\";
    }
    if UsableName(s) {
      ProperIsSegment(s);
    }
    hide IsLocal, Base, ByteLen;
  }

  /** The identifier: a usable one is kept, "" and texts with NUL are refused, and any other
      is replaced by its digest. */
  lemma IdentifierExactly(externalID: string, digest: string -> string)
    ensures PathIdentifier(externalID, digest) ==
            if externalID == "" || '\0' in externalID then Invalid
            else if UsableName(externalID) then Name(externalID)
            else Name("legacy-" + digest(externalID))
  {
    UsableExactly(externalID);
    hide UsableName, Segment;
  }

  /** The command name: the name, or else the external identifier, or else the other one,
      if it is usable and no option. */
  lemma CommandNameExactly(name: string, externalID: string, id: string)
    ensures name != "" ==> CommandName(name, externalID, id) == NameAlone(name)
    ensures name == "" && externalID != "" ==> CommandName(name, externalID, id) == NameAlone(externalID)
    ensures name == "" && externalID == "" ==> CommandName(name, externalID, id) == NameAlone(id)
  {
    UsableExactly(if name != "" then name else if externalID != "" then externalID else id);
    hide UsableName, Segment, IsLocal, Base, ByteLen, HasControl, ContainsAny;
  }

  function NameAlone(s: string): Identifier { if UsableName(s) && s[0] != '-' then Name(s) else Invalid }

  /** The identifier is always one proper path segment, and giving it to the function
      again changes nothing. */
  lemma IdentifierIsStable(externalID: string, digest: string -> string)
    requires HexDigest(digest) && PathIdentifier(externalID, digest).Name?
    ensures var s := PathIdentifier(externalID, digest).s; Proper(s) && PathIdentifier(s, digest) == Name(s)
  {
    LegacyIsSegment(digest(externalID));
    SegmentIsProper(PathIdentifier(externalID, digest).s);
  }

  /** A usable identifier is kept as it is; only "" and texts with NUL are refused. */
  lemma IdentifierMeaning(externalID: string, digest: string -> string)
    ensures PathIdentifier(externalID, digest).Invalid? <==> externalID == "" || '\0' in externalID
    ensures Proper(externalID) && '\\' !in externalID && ByteLen(externalID) <= 255
            && !HasControl(externalID) && '\0' !in externalID
            ==> PathIdentifier(externalID, digest) == Name(externalID)
  {
    if Proper(externalID) && '\\' !in externalID && ByteLen(externalID) <= 255 {
      ProperIsSegment(externalID);
    }
  }

  /** The command name is a proper segment that no program takes for an option, and it is
      its own command name. */
  lemma CommandNameIsStable(name: string, externalID: string, id: string)
    requires CommandName(name, externalID, id).Name?
    ensures var n := CommandName(name, externalID, id).s;
            Proper(n) && !HasPrefix(n, "-") && CommandName(n, externalID, id) == Name(n)
  {
  }

  // ----- removal

  function Ups(n: nat): (p: Path)
    ensures |p| == n
  {
    if n == 0 then [] else [".."] + Ups(n - 1)
  }

  /** filepath.Rel between cleaned absolute paths, on their segments. */
  function RelSegments(base: Path, target: Path): Path {
    if base != [] && target != [] && base[0] == target[0] then RelSegments(base[1..], target[1..])
    else Ups(|base|) + target
  }

  function Rel(base: Path, target: Path): string {
    var segs := RelSegments(base, target);
    if segs == [] then "." else Join(segs, '/')
  }

  /** One or more "..", then proper names. */
  ghost predicate LeadsOut(segs: Path) {
    exists up: nat :: 0 < up <= |segs| && segs == Ups(up) + segs[up..] && AllProper(segs[up..])
  }

  /** Either the target lies at or below the base, or the relative path leads out of it. */
  lemma {:induction false} RelShape(base: Path, target: Path)
    requires AllProper(base) && AllProper(target)
    ensures base <= target ==> RelSegments(base, target) == target[|base|..]
    ensures !(base <= target) ==> LeadsOut(RelSegments(base, target))
  {
    if base == [] {
      assert Ups(0) + target == target;
    } else if target != [] && base[0] == target[0] {
      RelShape(base[1..], target[1..]);
      assert base == [base[0]] + base[1..] && target == [target[0]] + target[1..];
      if base <= target {
        assert target[1..][|base| - 1..] == target[|base|..];
      }
    } else {
      var segs := RelSegments(base, target);
      assert segs[|base|..] == target;
      assert segs == Ups(|base|) + segs[|base|..];
    }
  }

  lemma {:induction false} ReduceProper(segs: Path, acc: Path)
    requires AllProper(segs)
    ensures Reduce(segs, false, acc) == acc + segs
  {
    if segs != [] {
      assert segs[0] in segs && AllProper(segs[1..]);
      ReduceProper(segs[1..], acc + [segs[0]]);
      assert acc + [segs[0]] + segs[1..] == acc + segs;
    }
  }

  lemma {:induction false} ReduceUps(up: nat, rest: Path, acc: Path)
    requires AllProper(rest) && forall s :: s in acc ==> s == ".."
    ensures Reduce(Ups(up) + rest, false, acc) == acc + (Ups(up) + rest)
  {
    var segs := Ups(up) + rest;
    if up == 0 {
      assert segs == rest;
      ReduceProper(rest, acc);
    } else {
      assert segs[0] == ".." && segs[1..] == Ups(up - 1) + rest;
      assert acc != [] ==> Last(acc) in acc;
      ReduceUps(up - 1, rest, acc + [".."]);
      assert acc + [".."] + segs[1..] == acc + segs;
    }
  }

  lemma {:induction false} UpsAreDots(up: nat)
    ensures forall s :: s in Ups(up) ==> s == ".."
  {
    if up > 0 {
      UpsAreDots(up - 1);
    }
  }

  lemma DotsFirst(segs: Path)
    requires segs != [] && segs[0] == ".."
    ensures var path := Join(segs, '/'); !IsAbs(path) && (path == ".." || HasPrefix(path, "../"))
  {
    var path := Join(segs, '/');
    assert path[0] == '.';
    if |segs| > 1 {
      assert path == ".." + ['/'] + Join(segs[1..], '/');
      assert path[..3] == "../";
    }
  }

  /** A relative path that leads out is not local. */
  lemma OutwardIsNotLocal(segs: Path)
    requires LeadsOut(segs)
    ensures !IsLocal(Join(segs, '/'))
  {
    var up: nat :| 0 < up <= |segs| && segs == Ups(up) + segs[up..] && AllProper(segs[up..]);
    UpsAreDots(up);
    assert forall s :: s in segs ==> s in Ups(up) || s in segs[up..];
    assert segs[0] == "..";
    SplitJoin(segs, '/');
    ReduceUps(up, segs[up..], []);
    assert [] + segs == segs && ".." in segs;
    DotsFirst(segs);
    assert Clean(Join(segs, '/')) == Join(segs, '/');
  }

  /** How the two creations of a machine directory end: the first may stop half-way; it
      may work and the second or the access to its parent fail; or all is well. */
  datatype BuildFate = MachinesFail(made: nat) | OwnFails | AllMade

  lemma NothingMade(d: Disk, p: Path)
    ensures MkdirTo(d, p, 0, PARENT_MODE) == d
  {
  }

  lemma DirsAlongNext(d: Disk, p: Path, name: string)
    ensures DirsAlong(d, p + [name]) <==> DirsAlong(d, p) && (p + [name] in d ==> d[p + [name]].Dir?)
  {
    var q := p + [name];
    assert q[..|q|] == q && forall i :: 0 <= i <= |p| ==> q[..i] == p[..i];
  }

  /** Creating a directory below the created ones is creating all of them. */
  lemma MkdirLast(d: Disk, p: Path, name: string)
    ensures var d1, q := MkdirAll(d, p, PARENT_MODE), p + [name];
            && (q in d1 <==> q in d) && (q in d ==> d1[q] == d[q])
            && MkdirAll(d, q, PARENT_MODE) == if q in d1 then d1 else d1[q := Dir(PARENT_MODE)]
  {
    var d1, q := MkdirAll(d, p, PARENT_MODE), p + [name];
    forall r ensures (r in MkdirAll(d, q, PARENT_MODE) <==> r in d1 || r == q) && (r == q ==> (r in d1 <==> r in d)) {
      assert q[..|q|] == q && forall i :: 0 <= i <= |p| ==> q[..i] == p[..i];
      assert forall i :: 0 < i <= |p| ==> |p[..i]| < |q|;
    }
  }

  /** The storage root: the machines directory and everything in the file system. */
  class Storage {
    const machines: Path
    var nodes: Disk

    constructor (machines: Path, nodes: Disk)
      requires machines != [] && AllProper(machines)
      ensures this.machines == machines && this.nodes == nodes
    {
      this.machines, this.nodes := machines, nodes;
    }

    /** buildBaseMachineDir: the machines directory with everything above it, and in it
        the machine's own. */
    method BuildBaseMachineDir(externalID: string, id: string, digest: string -> string, fate: BuildFate)
      returns (dir: Path, ok: bool)
      requires HexDigest(digest) && AllProper(machines)
      modifies this
      ensures ok <==> DirectoryIdentifier(externalID, id, digest).Name? && fate.AllMade?
                      && DirsAlong(old(nodes), machines + [DirectoryIdentifier(externalID, id, digest).s])
      ensures ok ==> dir == machines + [DirectoryIdentifier(externalID, id, digest).s] && AllProper(dir)
                     && nodes == MkdirAll(old(nodes), dir, PARENT_MODE)
      ensures !ok ==> exists k: nat :: k <= |machines| && nodes == MkdirTo(old(nodes), machines, k, PARENT_MODE)
    {
      dir := [];
      NothingMade(nodes, machines);
      var identifier := DirectoryIdentifier(externalID, id, digest);
      if identifier.Invalid? {
        return dir, false;
      }
      IdentifierIsStable(if externalID == "" then id else externalID, digest);
      dir := machines + [identifier.s];
      DirsAlongNext(nodes, machines, identifier.s);
      if !DirsAlong(nodes, machines) {
        return dir, false;
      }
      if fate.MachinesFail? {
        nodes := MkdirTo(nodes, machines, Min(fate.made, |machines|), PARENT_MODE);
        return dir, false;
      }
      ghost var before := nodes;
      nodes := MkdirAll(nodes, machines, PARENT_MODE);
      if !fate.AllMade? || (dir in nodes && !nodes[dir].Dir?) {
        return dir, false;
      }
      MkdirLast(before, machines, identifier.s);
      if dir !in nodes {
        nodes := nodes[dir := Dir(PARENT_MODE)];
      }
      return dir, true;
    }

    /** removeMachineDir of a cleaned absolute path: whatever the path, nothing but a
        subtree strictly below the machines directory goes, and it goes exactly when the
        path lies there, the machines directory can be opened, and as far as no removal
        fails; stuck are the paths whose removal does. */
    method RemoveMachineDir(machineDir: Path, rootOk: bool, stuck: set<Path>)
      requires AllProper(machines) && AllProper(machineDir)
      modifies this
      ensures nodes == if machines < machineDir && rootOk
                       then (map p | p in old(nodes) && (!(machineDir <= p) || p in stuck) :: old(nodes)[p])
                       else old(nodes)
    {
      RelShape(machines, machineDir);
      var rel := Rel(machines, machineDir);
      if !IsLocal(rel) || rel == "." {
        RefusedOnlyOutside(machines, machineDir);
        return;
      }
      RemovedOnlyInside(machines, machineDir);
      if !rootOk {
        return;
      }
      var target := machines + Split(rel, '/');
      nodes := map p | p in nodes && (!(target <= p) || p in stuck) :: nodes[p];
    }
  }

  lemma RefusedOnlyOutside(machines: Path, machineDir: Path)
    requires AllProper(machines) && AllProper(machineDir)
    requires var rel := Rel(machines, machineDir); !IsLocal(rel) || rel == "."
    ensures !(machines < machineDir)
  {
    RelShape(machines, machineDir);
    if machines < machineDir {
      ProperJoinIsLocal(machineDir[|machines|..]);
    }
  }

  lemma RemovedOnlyInside(machines: Path, machineDir: Path)
    requires AllProper(machines) && AllProper(machineDir)
    requires var rel := Rel(machines, machineDir); IsLocal(rel) && rel != "."
    ensures machines < machineDir && machines + Split(Rel(machines, machineDir), '/') == machineDir
  {
    RelShape(machines, machineDir);
    if !(machines <= machineDir) {
      OutwardIsNotLocal(RelSegments(machines, machineDir));
    }
    CleanProper(machineDir[|machines|..]);
  }

  lemma ProperJoinIsLocal(segs: Path)
    requires segs != [] && AllProper(segs)
    ensures IsLocal(Join(segs, '/')) && Join(segs, '/') != "."
  {
    CleanProper(segs);
    JoinIsRelative(segs);
    var path := Join(segs, '/');
    SplitWithoutSeparator(".", '/');
    SplitWithoutSeparator("..", '/');
    assert segs[0] in segs;
    if "../" <= path {
      var rest := path[3..];
      assert path == ".." + ['/'] + rest;
      SplitAround("..", '/', rest);
    }
  }
}
