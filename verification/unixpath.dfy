/** path/filepath on Unix, on strings, and what it means on the list of segments. */
module UnixPath {
  import opened Text

  function Last<T>(s: seq<T>): T
    requires s != []
  {
    s[|s| - 1]
  }

  predicate IsAbs(path: string) { HasPrefix(path, "/") }

  /** The segments left after resolving "", "." and "..", starting from acc. */
  function Reduce(parts: seq<string>, rooted: bool, acc: seq<string>): seq<string> {
    if parts == [] then acc
    else if parts[0] == "" || parts[0] == "." then Reduce(parts[1..], rooted, acc)
    else if parts[0] != ".." then Reduce(parts[1..], rooted, acc + [parts[0]])
    else if acc != [] && Last(acc) != ".." then Reduce(parts[1..], rooted, acc[..|acc| - 1])
    else if rooted then Reduce(parts[1..], rooted, acc)
    else Reduce(parts[1..], rooted, acc + [parts[0]])
  }

  function Clean(path: string): string {
    var segs := Reduce(Split(path, '/'), IsAbs(path), []);
    if IsAbs(path) then "/" + Join(segs, '/') else if segs == [] then "." else Join(segs, '/')
  }

  predicate IsLocal(path: string) {
    && path != "" && !IsAbs(path)
    && var parts := Split(path, '/');
       var p := if "." in parts || ".." in parts then Clean(path) else path;
       p != ".." && !HasPrefix(p, "../")
  }

  function Nonempty(parts: seq<string>): seq<string> {
    if parts == [] then [] else (if parts[0] == "" then [] else [parts[0]]) + Nonempty(parts[1..])
  }

  function Base(path: string): string {
    var parts := Nonempty(Split(path, '/'));
    if path == "" then "." else if parts == [] then "/" else Last(parts)
  }

  /** filepath.Join of two elements. */
  function JoinPath(a: string, b: string): string {
    if a == "" && b == "" then "" else Clean(if a == "" then b else if b == "" then a else a + "/" + b)
  }

  /** A name that a directory can contain. */
  predicate Proper(name: string) {
    name != "" && name != "." && name != ".." && '/' !in name
  }

  predicate AllProper(segs: seq<string>) { forall s :: s in segs ==> Proper(s) }

  /** The parts that name something. */
  function Named(parts: seq<string>): seq<string> {
    if parts == [] then []
    else (if parts[0] == "" || parts[0] == "." then [] else [parts[0]]) + Named(parts[1..])
  }

  lemma {:induction false} NamedMembers(parts: seq<string>, s: string)
    ensures s in Named(parts) <==> s in parts && s != "" && s != "."
  {
    if parts != [] {
      NamedMembers(parts[1..], s);
      assert s in parts <==> s == parts[0] || s in parts[1..];
    }
  }

  lemma {:induction false} NamedAppend(a: seq<string>, b: seq<string>)
    ensures Named(a + b) == Named(a) + Named(b)
  {
    if a == [] {
      assert a + b == b;
    } else {
      NamedAppend(a[1..], b);
      assert (a + b)[1..] == a[1..] + b && (a + b)[0] == a[0];
    }
  }

  lemma {:induction false} NamedProper(segs: seq<string>)
    requires AllProper(segs)
    ensures Named(segs) == segs && Nonempty(segs) == segs
  {
    if segs != [] {
      assert segs[0] in segs;
      NamedProper(segs[1..]);
    }
  }

  lemma {:induction false} ReduceWithoutDotDot(parts: seq<string>, rooted: bool, acc: seq<string>)
    requires ".." !in parts
    ensures Reduce(parts, rooted, acc) == acc + Named(parts)
  {
    if parts != [] {
      assert parts[0] in parts;
      ReduceWithoutDotDot(parts[1..], rooted, acc);
      ReduceWithoutDotDot(parts[1..], rooted, acc + [parts[0]]);
    }
  }

  lemma ContainsPrepend(a: string, b: string, sub: string)
    requires Contains(b, sub)
    ensures Contains(a + b, sub)
  {
    var i :| 0 <= i <= |b| && sub <= b[i..];
    assert (a + b)[|a| + i..] == b[i..];
  }

  lemma ContainsAppend(a: string, b: string, sub: string)
    requires Contains(a, sub)
    ensures Contains(a + b, sub)
  {
    var i :| 0 <= i <= |a| && sub <= a[i..];
    assert (a + b)[i..] == a[i..] + b;
  }

  lemma ContainedOnOneSide(a: string, sep: char, b: string, sub: string, i: nat)
    requires sep !in sub && i <= |a| + 1 + |b| && sub <= (a + [sep] + b)[i..]
    ensures Contains(a, sub) || Contains(b, sub)
  {
    var s := a + [sep] + b;
    if i <= |a| {
      var rest := s[i..];
      assert rest == a[i..] + [sep] + b && rest[|a| - i] == sep;
      assert forall k :: 0 <= k < |sub| ==> sub[k] in sub && sub[k] == rest[k];
      assert sub <= a[i..];
    } else {
      assert s[i..] == b[i - |a| - 1..];
    }
  }

  /** A text without the separator lies on one side of it. */
  lemma ContainsAround(a: string, sep: char, b: string, sub: string)
    requires sep !in sub
    ensures Contains(a + [sep] + b, sub) <==> Contains(a, sub) || Contains(b, sub)
  {
    var s := a + [sep] + b;
    if Contains(a, sub) {
      ContainsAppend(a, [sep] + b, sub);
      assert s == a + ([sep] + b);
    }
    if Contains(b, sub) {
      ContainsPrepend(a + [sep], b, sub);
    }
    if Contains(s, sub) {
      var i :| 0 <= i <= |s| && sub <= s[i..];
      ContainedOnOneSide(a, sep, b, sub, i);
    }
  }

  lemma {:induction false} JoinContains(parts: seq<string>, sep: char, sub: string)
    requires parts != [] && sep !in sub
    ensures Contains(Join(parts, sep), sub) <==> exists p :: p in parts && Contains(p, sub)
  {
    assert parts[0] in parts;
    if |parts| > 1 {
      ContainsAround(parts[0], sep, Join(parts[1..], sep), sub);
      JoinContains(parts[1..], sep, sub);
      assert forall p :: p in parts <==> p == parts[0] || p in parts[1..];
    }
  }

  /** A relative path without ".." cleans to its named parts, none of which holds "..". */
  lemma CleanRelative(path: string)
    requires !IsAbs(path) && !Contains(path, "..")
    ensures var segs := Named(Split(path, '/'));
            && AllProper(segs)
            && Clean(path) == (if segs == [] then "." else Join(segs, '/'))
            && !Contains(Clean(path), "..")
  {
    var parts := Split(path, '/');
    var segs := Named(parts);
    PartsHaveNoSeparator(path, '/');
    JoinSplit(path, '/');
    JoinContains(parts, '/', "..");
    assert Contains("..", "..") by { assert ".." <= ".."[0..]; }
    ReduceWithoutDotDot(parts, false, []);
    assert [] + segs == segs;
    forall s ensures s in segs ==> Proper(s) && s in parts { NamedMembers(parts, s); }
    if segs != [] {
      JoinContains(segs, '/', "..");
    }
  }

  /** A nonempty relative path without ".." is local: it stays below its root. */
  lemma LocalWithoutDotDot(path: string)
    requires path != "" && !IsAbs(path) && !Contains(path, "..")
    ensures IsLocal(path)
  {
    CleanRelative(path);
    forall p: string | !Contains(p, "..") ensures !(".." <= p) {
      assert p == p[0..];
    }
  }

  lemma JoinIsRelative(segs: seq<string>)
    requires segs != [] && AllProper(segs)
    ensures Join(segs, '/') != "" && !IsAbs(Join(segs, '/'))
  {
    assert segs[0] in segs;
    assert Join(segs, '/')[0] == segs[0][0] && segs[0][0] in segs[0];
  }

  /** A path of proper segments is already clean, and splits back into them. */
  lemma CleanProper(segs: seq<string>)
    requires segs != [] && AllProper(segs)
    ensures Split(Join(segs, '/'), '/') == segs
    ensures Clean(Join(segs, '/')) == Join(segs, '/')
  {
    SplitJoin(segs, '/');
    JoinIsRelative(segs);
    NamedProper(segs);
    ReduceWithoutDotDot(segs, false, []);
    assert [] + segs == segs;
  }

  lemma NotUpward(path: string)
    requires '/' !in path
    ensures !HasPrefix(path, "../")
  {
    assert |path| >= 3 ==> path[2] in path;
  }

  /** A proper name is local and its own base. */
  lemma ProperIsLocal(name: string)
    requires Proper(name)
    ensures IsLocal(name) && Base(name) == name
  {
    SplitWithoutSeparator(name, '/');
    assert [name][1..] == [] && Nonempty([name]) == [name];
    assert name[0] in name;
    NotUpward(name);
  }
}
