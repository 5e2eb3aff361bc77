/** A directory tree as a map from segment paths to nodes, the two kinds of write
    that a restored archive makes, and what a sequence of them leaves behind. */
module DiskWrites {
  type Path = seq<string>
  type Bytes = string

  /** Permissions with the set-id and sticky bits. */
  type Mode = m: int | 0 <= m < 4096

  datatype Node = File(mode: Mode, data: Bytes) | Dir(mode: Mode) | Symlink | Special

  /** Everything below one directory; the directory itself is []. */
  type Disk = map<Path, Node>

  datatype Write = MakeDir(path: Path, mode: Mode) | PutFile(path: Path, mode: Mode, data: Bytes)

  /** What the operating system does to a write: an entry's directories, its open
      or its copy may fail, leaving what was done until then. */
  datatype Fault = Healthy | MkdirFails(made: nat) | OpenFails | CopyFails(kept: nat)

  datatype Outcome = Outcome(disk: Disk, ok: bool)

  /** Mode 0740 of the directories created for a file. */
  const PARENT_MODE: Mode := 480

  /** mode & 0777. */
  function Perm(mode: int): Mode { mode % 512 }

  /** r is what the lowest nine bits of the mode say: rwx three times. */
  predicate LowNine(mode: int, r: int) { 0 <= r < 512 && mode == 512 * (mode / 512) + r }

  predicate Usable(w: Write) { w.PutFile? ==> w.path != [] }

  function Parent(p: Path): Path
    requires p != []
  {
    p[..|p| - 1]
  }

  /** No node on the way down to p, p included, is anything but a directory. */
  predicate DirsAlong(d: Disk, p: Path) {
    forall i :: 0 < i <= |p| && p[..i] in d ==> d[p[..i]].Dir?
  }

  /** The missing directories down to p, at most k levels deep, are created. */
  function MkdirTo(d: Disk, p: Path, k: nat, mode: Mode): Disk {
    d + map q | q in (set i | 0 < i <= |p| && i <= k :: p[..i]) && q !in d :: Dir(mode)
  }

  function MkdirAll(d: Disk, p: Path, mode: Mode): Disk { MkdirTo(d, p, |p|, mode) }

  function Attempt(d: Disk, w: Write, fault: Fault): Outcome
    requires Usable(w)
  {
    match w
    case MakeDir(p, mode) =>
      if !DirsAlong(d, p) then Outcome(d, false)
      else if fault.MkdirFails? then Outcome(MkdirTo(d, p, fault.made, mode), false)
      else if !fault.Healthy? then Outcome(d, false)
      else Outcome(MkdirAll(d, p, mode), true)
    case PutFile(p, mode, data) =>
      if !DirsAlong(d, Parent(p)) then Outcome(d, false)
      else if fault.MkdirFails? then Outcome(MkdirTo(d, Parent(p), fault.made, PARENT_MODE), false)
      else
        var d1 := MkdirAll(d, Parent(p), PARENT_MODE);
        if fault.OpenFails? || (p in d1 && !d1[p].File?) then Outcome(d1, false)
        else
          var kept := if fault.CopyFails? && fault.kept < |data| then data[..fault.kept] else data;
          var m := if p in d1 then d1[p].mode else mode;
          Outcome(d1[p := File(m, kept)], fault.Healthy?)
  }

  predicate AllUsable(ws: seq<Write>) { forall w :: w in ws ==> Usable(w) }

  /** The writes one after the other, until one fails. */
  function Replay(d: Disk, ws: seq<Write>, faults: nat -> Fault): Outcome
    requires AllUsable(ws)
  {
    if ws == [] then Outcome(d, true)
    else
      var n := |ws| - 1;
      assert ws[n] in ws;
      var before := Replay(d, ws[..n], faults);
      if before.ok then Attempt(before.disk, ws[n], faults(n)) else before
  }

  predicate AllHealthy(faults: nat -> Fault, n: nat) { forall i :: 0 <= i < n ==> faults(i).Healthy? }

  // ----- what the writes mean, without replaying them

  /** The write touches p: p is its target or a directory on the way there. */
  predicate Reaches(w: Write, p: Path) { p != [] && p <= w.path }

  predicate Puts(w: Write, p: Path) { w.PutFile? && w.path == p }

  /** The write can only succeed if p is a directory. */
  predicate NeedsDir(w: Write, p: Path) { Reaches(w, p) && !Puts(w, p) }

  /** No path is wanted both as a file and as a directory. */
  predicate ConflictFree(ws: seq<Write>) {
    forall i, j :: 0 <= i < |ws| && 0 <= j < |ws| && ws[i].PutFile? ==> !NeedsDir(ws[j], ws[i].path)
  }

  /** The mode that w gives to p when w is the write that creates p. */
  function CreatedMode(w: Write, p: Path): Mode {
    if w.PutFile? && p != w.path then PARENT_MODE else w.mode
  }

  predicate First(ws: seq<Write>, p: Path, j: nat) {
    j < |ws| && Reaches(ws[j], p) && forall k :: 0 <= k < j ==> !Reaches(ws[k], p)
  }

  predicate LastPut(ws: seq<Write>, p: Path, j: nat) {
    j < |ws| && Puts(ws[j], p) && forall k :: j < k < |ws| ==> !Puts(ws[k], p)
  }

  /** d holds exactly what ws leave in an empty directory: the paths they touch, with
      the mode of the first touch, and the data of the last file write. */
  ghost predicate Shows(ws: seq<Write>, d: Disk) {
    && (forall p :: p in d ==> exists j: nat :: First(ws, p, j))
    && (forall p, j: nat :: First(ws, p, j) ==>
          p in d && (d[p].File? || d[p].Dir?) && d[p].mode == CreatedMode(ws[j], p))
    && (forall p, j: nat :: LastPut(ws, p, j) ==> p in d && d[p].File? && d[p].data == ws[j].data)
    && (forall p :: p in d && d[p].File? ==> exists j: nat :: LastPut(ws, p, j))
  }

  lemma {:induction false} FirstExists(ws: seq<Write>, p: Path, k: nat)
    requires k < |ws| && Reaches(ws[k], p)
    ensures exists j :: First(ws, p, j)
  {
    if !First(ws, p, k) {
      var i :| 0 <= i < k && Reaches(ws[i], p);
      FirstExists(ws, p, i);
    }
  }

  lemma {:induction false} LastPutExists(ws: seq<Write>, p: Path, k: nat)
    requires k < |ws| && Puts(ws[k], p)
    ensures exists j :: LastPut(ws, p, j)
    decreases |ws| - k
  {
    if !LastPut(ws, p, k) {
      var i :| k < i < |ws| && Puts(ws[i], p);
      LastPutExists(ws, p, i);
    }
  }

  /** Two disks that show the same writes are equal. */
  lemma ShownOnce(ws: seq<Write>, d: Disk, e: Disk)
    requires Shows(ws, d) && Shows(ws, e)
    ensures d == e
  {
  }

  // ----- one write

  /** The node that p has after w has succeeded on d. */
  function NodeAfter(d: Disk, w: Write, p: Path): Node
    requires p in d || Reaches(w, p)
    requires p in d && Puts(w, p) ==> d[p].File?
  {
    if Puts(w, p) then File(if p in d then d[p].mode else CreatedMode(w, p), w.data)
    else if p in d then d[p]
    else Dir(CreatedMode(w, p))
  }

  /** A healthy write succeeds exactly when its directories are not files and its
      file is not a directory. */
  lemma AttemptSucceeds(d: Disk, w: Write)
    requires Usable(w)
    ensures Attempt(d, w, Healthy).ok <==>
            (forall q :: NeedsDir(w, q) && q in d ==> d[q].Dir?) &&
            (w.PutFile? && w.path in d ==> d[w.path].File?)
  {
    var along := if w.PutFile? then Parent(w.path) else w.path;
    forall i | 0 < i <= |along| ensures NeedsDir(w, along[..i]) {
      assert along[..i] == w.path[..i];
    }
    forall q | NeedsDir(w, q) ensures q == along[..|q|] {
      assert q == w.path[..|q|];
    }
    if w.PutFile? {
      assert MkdirAll(d, along, PARENT_MODE).Keys * {w.path} == d.Keys * {w.path};
    }
  }

  lemma AttemptEffect(d: Disk, w: Write, p: Path)
    requires Usable(w) && Attempt(d, w, Healthy).ok
    ensures var d' := Attempt(d, w, Healthy).disk;
            && (p in d' <==> p in d || Reaches(w, p))
            && (p in d && Puts(w, p) ==> d[p].File?)
            && (p in d' ==> d'[p] == NodeAfter(d, w, p))
  {
    AttemptSucceeds(d, w);
    var along := if w.PutFile? then Parent(w.path) else w.path;
    if p <= along {
      assert p == along[..|p|];
    }
    assert Reaches(w, p) ==> p == w.path || (p <= along && p != []);
  }

  // ----- all writes

  lemma FirstSnoc(us: seq<Write>, w: Write, p: Path, j: nat)
    ensures First(us + [w], p, j) <==>
            First(us, p, j) || (j == |us| && Reaches(w, p) && forall k :: 0 <= k < |us| ==> !Reaches(us[k], p))
  {
    var ws := us + [w];
    assert forall k :: 0 <= k < |us| ==> ws[k] == us[k];
  }

  lemma LastPutSnoc(us: seq<Write>, w: Write, p: Path, j: nat)
    ensures LastPut(us + [w], p, j) <==>
            (if Puts(w, p) then j == |us| else LastPut(us, p, j))
  {
    var ws := us + [w];
    assert forall k :: 0 <= k < |us| ==> ws[k] == us[k];
    assert ws[|us|] == w;
  }

  lemma ReachedIsIn(us: seq<Write>, d: Disk, p: Path)
    requires Shows(us, d)
    ensures p in d <==> exists k :: 0 <= k < |us| && Reaches(us[k], p)
    ensures p in d && d[p].File? <==> exists k :: 0 <= k < |us| && Puts(us[k], p)
  {
    if k :| 0 <= k < |us| && Reaches(us[k], p) { FirstExists(us, p, k); }
    if k :| 0 <= k < |us| && Puts(us[k], p) { LastPutExists(us, p, k); }
  }

  /** What the disk that shows us says of them. */
  lemma ShownPaths(us: seq<Write>, d: Disk)
    requires Shows(us, d)
    ensures forall q :: q in d <==> exists k :: 0 <= k < |us| && Reaches(us[k], q)
    ensures forall q :: q in d && d[q].File? <==> exists k :: 0 <= k < |us| && Puts(us[k], q)
    ensures forall q :: q in d ==> d[q].File? || d[q].Dir?
  {
    forall q ensures (q in d <==> exists k :: 0 <= k < |us| && Reaches(us[k], q))
                  && (q in d && d[q].File? <==> exists k :: 0 <= k < |us| && Puts(us[k], q))
                  && (q in d ==> d[q].File? || d[q].Dir?)
    {
      ReachedIsIn(us, d, q);
    }
  }

  lemma NoConflictFits(us: seq<Write>, w: Write, d: Disk)
    requires AllUsable(us) && Usable(w) && Shows(us, d) && ConflictFree(us + [w])
    ensures Attempt(d, w, Healthy).ok
  {
    var ws := us + [w];
    assert ws[|us|] == w && forall k :: 0 <= k < |us| ==> ws[k] == us[k];
    ShownPaths(us, d);
    AttemptSucceeds(d, w);
    hide Shows, Attempt, AllUsable;
    forall q | NeedsDir(w, q) && q in d ensures d[q].Dir? {
      if k :| 0 <= k < |us| && Puts(us[k], q) {
        assert NeedsDir(ws[|us|], ws[k].path);
      }
    }
    if w.PutFile? && w.path in d {
      var k :| 0 <= k < |us| && Reaches(us[k], w.path);
      assert !NeedsDir(ws[k], ws[|us|].path);
    }
  }

  lemma FittingHasNoConflict(us: seq<Write>, w: Write, d: Disk)
    requires AllUsable(us) && Usable(w) && Shows(us, d) && ConflictFree(us) && Attempt(d, w, Healthy).ok
    ensures ConflictFree(us + [w])
  {
    var ws := us + [w];
    assert ws[|us|] == w && forall k :: 0 <= k < |us| ==> ws[k] == us[k];
    ShownPaths(us, d);
    AttemptSucceeds(d, w);
    hide Shows, Attempt, AllUsable;
    forall i, j | 0 <= i < |ws| && 0 <= j < |ws| && ws[i].PutFile? ensures !NeedsDir(ws[j], ws[i].path) {
      if i < |us| && j == |us| {
        assert Puts(us[i], us[i].path);
        assert us[i].path in d && d[us[i].path].File?;
      } else if i == |us| && j < |us| && Reaches(us[j], w.path) {
        assert w.path in d;
        var k :| 0 <= k < |us| && Puts(us[k], w.path);
        assert !NeedsDir(us[j], us[k].path);
      }
    }
  }

  /** One more write succeeds exactly when it conflicts with none before it. */
  lemma StepConflict(us: seq<Write>, w: Write, d: Disk)
    requires AllUsable(us) && Usable(w) && Shows(us, d) && ConflictFree(us)
    ensures Attempt(d, w, Healthy).ok <==> ConflictFree(us + [w])
  {
    hide Shows, Attempt, ConflictFree;
    if ConflictFree(us + [w]) {
      NoConflictFits(us, w, d);
    }
    if Attempt(d, w, Healthy).ok {
      FittingHasNoConflict(us, w, d);
    }
  }

  lemma StepFirst(us: seq<Write>, w: Write, d: Disk, p: Path, j: nat)
    requires AllUsable(us) && Usable(w) && Shows(us, d) && Attempt(d, w, Healthy).ok && First(us + [w], p, j)
    ensures var e := Attempt(d, w, Healthy).disk;
            p in e && (e[p].File? || e[p].Dir?) && e[p].mode == CreatedMode((us + [w])[j], p)
  {
    hide Attempt, CreatedMode;
    AttemptEffect(d, w, p);
    FirstSnoc(us, w, p, j);
    ReachedIsIn(us, d, p);
  }

  lemma StepLast(us: seq<Write>, w: Write, d: Disk, p: Path, j: nat)
    requires AllUsable(us) && Usable(w) && Shows(us, d) && Attempt(d, w, Healthy).ok && LastPut(us + [w], p, j)
    ensures var e := Attempt(d, w, Healthy).disk;
            p in e && e[p].File? && e[p].data == (us + [w])[j].data
  {
    hide Attempt, CreatedMode;
    AttemptEffect(d, w, p);
    LastPutSnoc(us, w, p, j);
  }

  lemma StepWitness(us: seq<Write>, w: Write, d: Disk, p: Path)
    requires AllUsable(us) && Usable(w) && Shows(us, d) && Attempt(d, w, Healthy).ok
    requires p in Attempt(d, w, Healthy).disk
    ensures exists j: nat :: First(us + [w], p, j)
    ensures Attempt(d, w, Healthy).disk[p].File? ==> exists j: nat :: LastPut(us + [w], p, j)
  {
    hide Attempt, CreatedMode;
    AttemptEffect(d, w, p);
    ReachedIsIn(us, d, p);
    var n := |us|;
    FirstSnoc(us, w, p, n);
    LastPutSnoc(us, w, p, n);
    if p in d {
      var j: nat :| First(us, p, j);
      FirstSnoc(us, w, p, j);
    }
    if p in d && d[p].File? {
      var j: nat :| LastPut(us, p, j);
      LastPutSnoc(us, w, p, j);
    }
  }

  lemma StepShows(us: seq<Write>, w: Write, d: Disk)
    requires AllUsable(us) && Usable(w) && Shows(us, d) && Attempt(d, w, Healthy).ok
    ensures Shows(us + [w], Attempt(d, w, Healthy).disk)
  {
    hide Attempt, CreatedMode;
    var ws, e := us + [w], Attempt(d, w, Healthy).disk;
    forall p, j: nat | First(ws, p, j)
      ensures j < |ws| && p in e && (e[p].File? || e[p].Dir?) && e[p].mode == CreatedMode(ws[j], p)
    {
      StepFirst(us, w, d, p, j);
    }
    forall p, j: nat | LastPut(ws, p, j) ensures j < |ws| && p in e && e[p].File? && e[p].data == ws[j].data {
      StepLast(us, w, d, p, j);
    }
    forall p | p in e
      ensures exists j: nat :: First(ws, p, j)
      ensures e[p].File? ==> exists j: nat :: LastPut(ws, p, j)
    {
      StepWitness(us, w, d, p);
    }
  }

  lemma FaultyAttemptFails(d: Disk, w: Write, fault: Fault)
    requires Usable(w) && !fault.Healthy?
    ensures !Attempt(d, w, fault).ok
  {
  }

  lemma ConflictFreePrefix(us: seq<Write>, w: Write)
    requires ConflictFree(us + [w])
    ensures ConflictFree(us)
  {
    assert forall k :: 0 <= k < |us| ==> (us + [w])[k] == us[k];
  }

  /** o is how the writes end when they start from an empty directory. */
  ghost predicate EndsAs(ws: seq<Write>, faults: nat -> Fault, o: Outcome) {
    && (o.ok <==> AllHealthy(faults, |ws|) && ConflictFree(ws))
    && (o.ok ==> Shows(ws, o.disk))
  }

  lemma EndsAsSnoc(us: seq<Write>, w: Write, faults: nat -> Fault, before: Outcome)
    requires AllUsable(us) && Usable(w) && EndsAs(us, faults, before)
    ensures EndsAs(us + [w], faults, if before.ok then Attempt(before.disk, w, faults(|us|)) else before)
  {
    if ConflictFree(us + [w]) {
      ConflictFreePrefix(us, w);
    }
    if before.ok {
      if faults(|us|).Healthy? {
        StepConflict(us, w, before.disk);
        if ConflictFree(us + [w]) {
          StepShows(us, w, before.disk);
        }
      } else {
        FaultyAttemptFails(before.disk, w, faults(|us|));
      }
    }
  }

  /** From an empty directory the writes all succeed exactly when none fails for the
      operating system and no path is wanted as both file and directory, whatever
      their order; and then the disk shows them. */
  lemma {:induction false} ReplaySucceeds(ws: seq<Write>, faults: nat -> Fault)
    requires AllUsable(ws)
    ensures EndsAs(ws, faults, Replay(map[], ws, faults))
  {
    if ws != [] {
      var us, w := ws[..|ws| - 1], ws[|ws| - 1];
      assert w in ws;
      ReplaySucceeds(us, faults);
      EndsAsSnoc(us, w, faults, Replay(map[], us, faults));
      assert ws == us + [w];
    }
  }

  /** What a failed file write leaves at its target: what was there, if the open failed,
      and as much of the data as was copied, if the copy did. */
  lemma FaultyPut(d: Disk, w: Write, fault: Fault)
    requires w.PutFile? && w.path != [] && DirsAlong(d, Parent(w.path)) && (w.path in d ==> d[w.path].File?)
    ensures var d' := Attempt(d, w, fault).disk;
            match fault
            case OpenFails => (w.path in d' <==> w.path in d) && (w.path in d ==> d'[w.path] == d[w.path])
            case CopyFails(kept) => w.path in d' && d'[w.path].File? && d'[w.path].data <= w.data
                                    && |d'[w.path].data| == if kept < |w.data| then kept else |w.data|
            case _ => true
  {
  }

  /** Whatever fails, a write changes nothing but its target and the directories on
      the way to it, and never removes anything. */
  lemma AttemptConfined(d: Disk, w: Write, fault: Fault, p: Path)
    requires Usable(w)
    ensures var d' := Attempt(d, w, fault).disk;
            && (p in d ==> p in d')
            && (!Reaches(w, p) ==> (p in d' ==> p in d && d'[p] == d[p]))
  {
  }

  lemma {:induction false} ReplayConfined(d: Disk, ws: seq<Write>, faults: nat -> Fault, p: Path)
    requires AllUsable(ws)
    ensures var d' := Replay(d, ws, faults).disk;
            && (p in d ==> p in d')
            && ((forall w :: w in ws ==> !Reaches(w, p)) ==> (p in d' ==> p in d && d'[p] == d[p]))
  {
    if ws != [] {
      var n := |ws| - 1;
      assert ws[n] in ws;
      ReplayConfined(d, ws[..n], faults, p);
      var before := Replay(d, ws[..n], faults);
      if before.ok {
        AttemptConfined(before.disk, ws[n], faults(n), p);
      }
    }
  }
}
