/** Which headers a restore takes for what. COMPATIBILITY.md says that regular files and
    directories only are restored, and links, devices and special files rejected; the
    restore loop of handlers/config.go asks only the file mode that archive/tar derives
    from a header, and lets others through. */
module HeaderTypes {
  import opened Text
  import opened UnixPath
  import opened DiskWrites
  import opened ArchiveNames
  import opened MachineArchive

  /** The types of regular files, old and new, and of directories. */
  predicate Promised(typeflag: char) { typeflag == TYPE_REG || typeflag == '\0' || typeflag == TYPE_DIR }

  // ----- one entry, from its header alone

  /** What stands above the permissions in the 32 bits of a file mode. */
  function HighBits(mode: int): int { mode % 4294967296 / 4096 }

  lemma BitsExactly(mode: int)
    ensures TypeBits(mode) == 4096 * HighBits(mode)
  {
  }

  lemma SafeTextExactly(name: string)
    ensures SafeText(name) <==> SafeName(name)
  {
    ContainsDots(name);
    ContainsChar(name, '\\');
    assert ['\\'] == "\\";
  }

  lemma KindExactly(e: Entry)
    ensures KindOf(e).Directory? <==> e.typeflag == '5' || HighBits(e.mode) == 4
    ensures KindOf(e).OtherKind? <==>
              !(e.typeflag == '5' || HighBits(e.mode) == 4)
              && (e.typeflag in "2346" || HighBits(e.mode) in [1, 2, 6, 10, 12])
    ensures KindOf(e).Regular? ==> Content(e) == if e.typeflag == '1' || e.typeflag == 'g' then "" else e.data
  {
    BitsExactly(e.mode);
  }

  /** What a restore makes of an entry: which error it refuses it with, or the root, or
      the directory or file with its path, permissions and data. */
  lemma EntryExactly(root: string, e: Entry)
    requires Proper(root)
    ensures var segs, high, v := Named(Split(e.name, '/')), HighBits(e.mode), Read(root, e);
            var dir := e.typeflag == '5' || high == 4;
            if !SafeText(e.name) then v == Refused(UnsafeEntry)
            else if segs == [] || segs[0] != root then v == Refused(ForeignEntry)
            else if |segs| == 1 then v == (if dir then RootSeen else Refused(RootNotDirectory))
            else if dir then v.Wants? && v.write.MakeDir? && v.write.path == segs[1..] && LowNine(e.mode, v.write.mode)
            else if e.typeflag in "2346" || high in [1, 2, 6, 10, 12] then v == Refused(UnsupportedType)
            else
              && v.Wants? && v.write.PutFile? && v.write.path == segs[1..] && LowNine(e.mode, v.write.mode)
              && v.write.data == if e.typeflag == '1' || e.typeflag == 'g' then "" else e.data
  {
    JudgeMeaning(root, e.name);
    SafeTextExactly(e.name);
    KindExactly(e);
    assert LowNine(e.mode, Perm(e.mode));
    hide Judge, SafeName, SafeText, Named, KindOf, Content, HighBits, Perm, LowNine, Proper;
  }

  predicate SaysDirectory(e: Entry) { e.typeflag == TYPE_DIR || TypeBits(e.mode) == DIRECTORY_BITS }
  predicate SaysSpecial(e: Entry) { e.typeflag in SPECIAL_TYPES || TypeBits(e.mode) in SPECIAL_BITS }

  /** When an entry is accepted: its name is safe and begins with the machine; and it says
      that it is a directory, or lies below the machine and does not say that it is a
      link, device, FIFO or socket. */
  lemma AcceptedExactly(root: string, e: Entry)
    requires Proper(root)
    ensures var segs := Named(Split(e.name, '/'));
            Accepted(root, e) <==>
              && SafeName(e.name) && segs != [] && segs[0] == root
              && (SaysDirectory(e) || (|segs| > 1 && !SaysSpecial(e)))
  {
    JudgeMeaning(root, e.name);
    hide Judge, SafeName, Named;
  }

  /** For a type that is not promised, in terms of the header alone: any type that is none
      of "2346", a hard link or a global header for one, passes below the machine unless
      its mode says otherwise; and every type passes, also as the machine's own directory,
      if its mode says that it is a directory. */
  lemma UnpromisedExactly(root: string, e: Entry)
    requires Proper(root) && !Promised(e.typeflag)
    ensures var segs, bits := Named(Split(e.name, '/')), TypeBits(e.mode);
            Accepted(root, e) <==>
              && SafeName(e.name) && segs != [] && segs[0] == root
              && (bits == DIRECTORY_BITS || (|segs| > 1 && e.typeflag !in SPECIAL_TYPES && bits !in SPECIAL_BITS))
  {
    AcceptedExactly(root, e);
    hide Accepted, SafeName, Named;
  }

  /** A header that slips through: not of a promised type, and not refused for its type. */
  predicate Slips(e: Entry) {
    && !Promised(e.typeflag)
    && (TypeBits(e.mode) == DIRECTORY_BITS || !(e.typeflag in SPECIAL_TYPES || TypeBits(e.mode) in SPECIAL_BITS))
  }

  /** A restorable archive keeps the promise exactly if no header in it slips through:
      symbolic links, devices and FIFOs as such are never in one, but hard links, global
      headers and unknown types may be, and anything with directory bits. */
  lemma PromiseKeptExactly(root: string, es: seq<Entry>, intact: bool)
    requires Proper(root) && Restorable(root, es, intact)
    ensures (forall e :: e in es ==> Promised(e.typeflag)) <==> (forall e :: e in es ==> !Slips(e))
  {
    forall e | e in es && !Promised(e.typeflag) ensures Slips(e) {
      UnpromisedExactly(root, e);
    }
  }

  // ----- what becomes of them

  /** The promised header that means the same to a restore, if the kind allows one. */
  function AsPromised(e: Entry): Entry {
    match KindOf(e)
    case OtherKind => e
    case Directory => Entry(e.name, TYPE_DIR, Perm(e.mode), "")
    case Regular => Entry(e.name, TYPE_REG, Perm(e.mode), Content(e))
  }

  function AllAsPromised(es: seq<Entry>): seq<Entry> {
    seq(|es|, i requires 0 <= i < |es| => AsPromised(es[i]))
  }

  lemma ReadsAsPromised(root: string, e: Entry)
    ensures Read(root, AsPromised(e)) == Read(root, e)
    ensures Accepted(root, e) ==> Promised(AsPromised(e).typeflag)
  {
    hide Judge;
  }

  lemma AcceptedLast(root: string, es: seq<Entry>)
    requires es != []
    ensures AllAccepted(root, es) <==> AllAccepted(root, es[..|es| - 1]) && Accepted(root, es[|es| - 1])
  {
    hide Accepted;
    assert forall e :: e in es <==> e in es[..|es| - 1] || e == es[|es| - 1];
  }

  lemma {:induction false} PromisedWrites(root: string, es: seq<Entry>)
    requires Proper(root)
    ensures Writes(root, AllAsPromised(es)) == Writes(root, es)
    ensures AllAccepted(root, AllAsPromised(es)) <==> AllAccepted(root, es)
  {
    if es != [] {
      var n := |es| - 1;
      var us, fs := es[..n], AllAsPromised(es);
      PromisedWrites(root, us);
      assert fs[..n] == AllAsPromised(us) && fs[n] == AsPromised(es[n]);
      ReadsAsPromised(root, es[n]);
      hide Read, AsPromised;
      AcceptedLast(root, es);
      AcceptedLast(root, fs);
    }
  }

  /** Restoring any archive is restoring one of regular files and directories only, with
      the same writes: directories for what says so, and empty regular files for the hard
      links and global headers. */
  lemma RestoresAsPromised(root: string, es: seq<Entry>, intact: bool)
    requires Proper(root)
    ensures Writes(root, AllAsPromised(es)) == Writes(root, es)
    ensures Restorable(root, AllAsPromised(es), intact) <==> Restorable(root, es, intact)
    ensures Restorable(root, es, intact) ==> forall e :: e in AllAsPromised(es) ==> Promised(e.typeflag)
  {
    PromisedWrites(root, es);
    if Restorable(root, es, intact) {
      var fs := AllAsPromised(es);
      forall i | 0 <= i < |fs| ensures Promised(fs[i].typeflag) {
        assert es[i] in es;
        ReadsAsPromised(root, es[i]);
      }
    }
  }

  lemma {:induction false} WritesConcat(root: string, es: seq<Entry>, fs: seq<Entry>)
    requires Proper(root)
    ensures Writes(root, es + fs) == Writes(root, es) + Writes(root, fs)
    decreases |fs|
  {
    if fs == [] {
      assert es + fs == es;
    } else {
      hide Read, Writes;
      var us, f := fs[..|fs| - 1], fs[|fs| - 1];
      assert fs == us + [f] && es + (us + [f]) == (es + us) + [f];
      WritesConcat(root, es, us);
      WritesSnoc(root, es + us, f);
      WritesSnoc(root, us, f);
      if Read(root, f).Wants? {
        Associative(Writes(root, es), Writes(root, us), [Read(root, f).write]);
      }
    }
  }

  /** What a restore into an empty directory leaves, if no write fails. */
  function Restored(root: string, es: seq<Entry>): Disk
    requires Proper(root)
  {
    Replay(map[], Writes(root, es), (k: nat) => Healthy).disk
  }

  lemma RestoredShows(root: string, es: seq<Entry>)
    requires Proper(root) && Restorable(root, es, true)
    ensures Shows(Writes(root, es), Restored(root, es))
  {
    ReplaySucceeds(Writes(root, es), (k: nat) => Healthy);
  }

  lemma NobodyElsePuts(root: string, es: seq<Entry>, p: Path)
    requires Proper(root) && forall e :: e in es ==> Judge(root, e.name) != Below(p)
    ensures forall w :: w in Writes(root, es) ==> w.path != p
  {
    forall w | w in Writes(root, es) ensures w.path != p {
      WritesStayBelow(root, es, w);
      var e :| e in es && Read(root, e) == Wants(w);
    }
  }

  lemma LastPutInside(us: seq<Write>, w: Write, vs: seq<Write>, p: Path)
    requires Puts(w, p) && forall v :: v in vs ==> v.path != p
    ensures LastPut(us + [w] + vs, p, |us|) && (us + [w] + vs)[|us|] == w
  {
    var ws := us + [w] + vs;
    forall k | |us| < k < |ws| ensures !Puts(ws[k], p) {
      assert ws[k] == vs[k - |us| - 1] && ws[k] in vs;
    }
  }

  /** In a restorable archive the last entry for a path, if it is taken for a regular file,
      decides what is there, whatever earlier entries had put: what can be read behind it.
      Behind a hard link or a global header that is nothing. */
  lemma LastEntryDecides(root: string, before: seq<Entry>, e: Entry, after: seq<Entry>, p: Path)
    requires Proper(root) && KindOf(e).Regular? && Judge(root, e.name) == Below(p)
    requires forall x :: x in after ==> Judge(root, x.name) != Below(p)
    requires Restorable(root, before + [e] + after, true)
    ensures var d := Restored(root, before + [e] + after); p in d && d[p].File? && d[p].data == Content(e)
    ensures e.typeflag == TYPE_LINK || e.typeflag == TYPE_GLOBAL ==> Content(e) == ""
  {
    var us, vs, w := Writes(root, before), Writes(root, after), PutFile(p, Perm(e.mode), Content(e));
    WritesConcat(root, before + [e], after);
    WritesSnoc(root, before, e);
    NobodyElsePuts(root, after, p);
    RestoredShows(root, before + [e] + after);
    hide Writes, Read, Judge, Restored, Restorable, Content;
    LastPutInside(us, w, vs, p);
  }

  // ----- witnesses

  lemma SamePutTwice(first: Write, second: Write)
    requires first.PutFile? && second.PutFile? && first.path == second.path
    ensures ConflictFree([first, second])
  {
  }

  lemma TwoWrites(root: string, es: seq<Entry>, first: Write, second: Write)
    requires Proper(root) && |es| == 2
    requires Read(root, es[0]) == Wants(first) && Read(root, es[1]) == Wants(second)
    ensures Writes(root, es) == [first, second]
  {
    var one := [es[0]];
    assert es == one + [es[1]];
    assert Writes(root, one) == [first] by {
      WritesSnoc(root, [], es[0]);
      assert [] + [es[0]] == one;
    }
    WritesSnoc(root, one, es[1]);
  }

  lemma SegmentBelow(root: string, name: string)
    requires Proper(root) && Proper(name) && Portable(root) && Portable(name)
    ensures Judge(root, Join([root, name], '/')) == Below([name])
  {
    SavedNameIsJudged(root, [name]);
    assert [root] + [name] == [root, name];
  }

  lemma PairRestores(root: string, e: Entry, x: Entry, p: Path)
    requires Proper(root) && Judge(root, e.name) == Judge(root, x.name) == Below(p)
    requires KindOf(e).Regular? && KindOf(x).Regular?
    ensures Restorable(root, [e, x], true)
  {
    hide Judge, KindOf, Content, Writes, ConflictFree;
    var first, second := PutFile(p, Perm(e.mode), Content(e)), PutFile(p, Perm(x.mode), Content(x));
    TwoWrites(root, [e, x], first, second);
    WantedIsUsable(root, e);
    SamePutTwice(first, second);
  }

  /** The archive restores without error to an empty file at p. */
  predicate EndsEmpty(root: string, es: seq<Entry>, p: Path)
    requires Proper(root)
  {
    var d := Restored(root, es);
    Restorable(root, es, true) && p in d && d[p].File? && d[p].data == ""
  }

  /** For every portable machine and name and for both types: a file, followed by a hard
      link or a global header of the same name whose mode says nothing special, restores
      without error, and the file's data is gone. */
  lemma SlippedHeaderErasesData(root: string, name: string, file: Entry, slip: Entry)
    requires Proper(root) && Proper(name) && Portable(root) && Portable(name)
    requires file.name == slip.name == Join([root, name], '/') && file.typeflag == TYPE_REG && TypeBits(file.mode) == 0
    requires (slip.typeflag == TYPE_LINK || slip.typeflag == TYPE_GLOBAL) && TypeBits(slip.mode) == 0
    ensures EndsEmpty(root, [file, slip], [name])
  {
    SegmentBelow(root, name);
    PairRestores(root, file, slip, [name]);
    assert [file] + [slip] + [] == [file, slip];
    LastEntryDecides(root, [file], slip, [], [name]);
  }

  lemma PlainName(s: string)
    requires |s| == 1 && s != "." && s != "/" && s != "\\"
    ensures Proper(s) && Portable(s)
  {
  }

  lemma NameMA()
    ensures Join(["m", "a"], '/') == "m/a" && Judge("m", "m/a") == Below(["a"]) && Judge("m", "m") == RootItself
  {
    PlainName("m");
    PlainName("a");
    assert ["m", "a"][1..] == ["a"];
    SegmentBelow("m", "a");
    JudgeMeaning("m", "m");
    SplitWithoutSeparator("m", '/');
    assert ["m"][1..] == [] && Named(["m"]) == ["m"];
  }

  lemma FileThenSlip(slip: Entry)
    requires slip.name == "m/a" && TypeBits(slip.mode) == 0
    requires slip.typeflag == TYPE_LINK || slip.typeflag == TYPE_GLOBAL
    ensures Proper("m") && EndsEmpty("m", [Entry("m/a", TYPE_REG, 420, "data"), slip], ["a"])
  {
    PlainName("m");
    PlainName("a");
    NameMA();
    assert TypeBits(420) == 0;
    hide EndsEmpty, Judge, Proper, Portable, Join, TypeBits;
    SlippedHeaderErasesData("m", "a", Entry("m/a", TYPE_REG, 420, "data"), slip);
  }

  /** The machine "m" with a file "a": an archive with a hard link, and one with a global
      header and no hard link at all. */
  lemma ConcreteSlips()
    ensures var file, link := Entry("m/a", TYPE_REG, 420, "data"), Entry("m/a", TYPE_LINK, 420, "");
            var global := Entry("m/a", TYPE_GLOBAL, 0, "");
            && Proper("m") && Slips(link) && Slips(global)
            && EndsEmpty("m", [file, link], ["a"]) && EndsEmpty("m", [file, global], ["a"])
  {
    hide EndsEmpty, Proper;
    FileThenSlip(Entry("m/a", TYPE_LINK, 420, ""));
    FileThenSlip(Entry("m/a", TYPE_GLOBAL, 0, ""));
  }

  /** What the mode makes of a hard link and a symbolic link: with the bits of a directory
      (0040755) both are directories, even as the machine's own, and also if there are more
      bits above the 32 of a file mode; and with those of a symbolic link (0120777) the hard
      link is refused. */
  lemma ConcreteModes()
    ensures forall flag :: flag == TYPE_LINK || flag == '2' ==>
              && Read("m", Entry("m", flag, 16877, "")) == RootSeen
              && Read("m", Entry("m/a", flag, 16877, "")) == Wants(MakeDir(["a"], 493))
              && Read("m", Entry("m/a", flag, 0x1_0000_0000 + 16877, "")) == Wants(MakeDir(["a"], 493))
    ensures Read("m", Entry("m/a", TYPE_LINK, 41471, "")) == Refused(UnsupportedType)
  {
    NameMA();
    hide Judge;
  }
}
