/** Entry names of a machine archive: what the string checks of the restore loop
    accept, and which path they accept it for. */
module ArchiveNames {
  import opened Text
  import opened UnixPath
  import opened DiskWrites

  datatype Verdict = Unsafe | Foreign | RootItself | Below(path: Path)

  /** The part of Judge after the name has been cleaned. */
  function Place(root: string, filename: string): Verdict {
    if filename != root && !HasPrefix(filename, root + ['/']) then Foreign
    else
      var rest := TrimPrefix(TrimPrefix(filename, root), ['/']);
      if rest == "" then RootItself else Below(Split(rest, '/'))
  }

  /** The checks of restoreMachineDir on the name of an entry, string by string. */
  function Judge(root: string, name: string): Verdict {
    if name == "" || IsAbs(name) || Contains(name, "..") || Contains(name, "\\") then Unsafe
    else if !IsLocal(name) then Unsafe
    else Place(root, Clean(name))
  }

  /** No ".." and no backslash: the name survives the restore checks. */
  predicate Portable(s: string) { !Contains(s, "..") && !Contains(s, "\\") }

  predicate SafeName(name: string) { name != "" && !IsAbs(name) && Portable(name) }

  lemma JoinIsRoot(segs: seq<string>, root: string)
    requires segs != [] && AllProper(segs) && '/' !in root
    ensures Join(segs, '/') == root <==> segs == [root]
  {
  }

  lemma JoinBelowRoot(segs: seq<string>, root: string)
    requires segs != [] && AllProper(segs) && '/' !in root
    ensures HasPrefix(Join(segs, '/'), root + ['/']) <==> |segs| > 1 && segs[0] == root
  {
    var s := Join(segs, '/');
    if HasPrefix(s, root + ['/']) {
      var rest := s[|root| + 1..];
      assert s == root + ['/'] + rest;
      CleanProper(segs);
      SplitWithoutSeparator(root, '/');
      SplitAround(root, '/', rest);
    }
    if |segs| > 1 && segs[0] == root {
      assert s == root + ['/'] + Join(segs[1..], '/');
    }
  }

  lemma PlaceBelow(root: string, tail: string)
    requires tail != ""
    ensures Place(root, root + ['/'] + tail) == Below(Split(tail, '/'))
  {
  }

  lemma PlaceMeaning(root: string, segs: seq<string>)
    requires Proper(root) && segs != [] && AllProper(segs)
    ensures Place(root, Join(segs, '/')) ==
              if segs[0] != root then Foreign else if |segs| == 1 then RootItself else Below(segs[1..])
  {
    var filename := Join(segs, '/');
    JoinIsRoot(segs, root);
    JoinBelowRoot(segs, root);
    if |segs| > 1 && segs[0] == root {
      CleanProper(segs[1..]);
      JoinIsRelative(segs[1..]);
      PlaceBelow(root, Join(segs[1..], '/'));
    }
  }

  /** The meaning of the checks: a safe name belongs to the machine exactly when its
      first real segment is the machine's, and it then stands for the others. */
  lemma JudgeMeaning(root: string, name: string)
    requires Proper(root)
    ensures var segs := Named(Split(name, '/'));
            Judge(root, name) ==
              if !SafeName(name) then Unsafe
              else if segs == [] || segs[0] != root then Foreign
              else if |segs| == 1 then RootItself
              else Below(segs[1..])
  {
    if SafeName(name) {
      LocalWithoutDotDot(name);
      CleanRelative(name);
      var segs := Named(Split(name, '/'));
      if segs == [] {
        assert |root + ['/']| > 1;
      } else {
        PlaceMeaning(root, segs);
      }
    }
  }

  /** Every path that the checks let through lies strictly below the machine directory:
      at least one segment, and none of them steps sideways or up. */
  lemma AcceptedStaysBelow(root: string, name: string)
    requires Proper(root) && Judge(root, name).Below?
    ensures var p := Judge(root, name).path; p != [] && AllProper(p)
  {
    JudgeMeaning(root, name);
    CleanRelative(name);
  }

  /** The name that the save gives to path p is judged to be p itself, exactly when
      every segment of it is portable; otherwise it is refused as unsafe. */
  lemma SavedNameIsJudged(root: string, p: Path)
    requires Proper(root) && p != [] && AllProper(p)
    ensures Judge(root, Join([root] + p, '/')) ==
            if Portable(root) && (forall s :: s in p ==> Portable(s)) then Below(p) else Unsafe
  {
    var segs := [root] + p;
    var name := Join(segs, '/');
    CleanProper(segs);
    JoinIsRelative(segs);
    NamedProper(segs);
    JudgeMeaning(root, name);
    JoinContains(segs, '/', "..");
    JoinContains(segs, '/', "\\");
    assert segs[1..] == p;
    assert root in segs && forall s :: s in segs <==> s == root || s in p;
  }
}
