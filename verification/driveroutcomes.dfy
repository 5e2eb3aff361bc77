/** What is taken out of a driver download, and what Stage, Install and Remove do, from
    texts, digests and the outcomes of their calls alone (dynamic/driver.go). */
module DriverOutcomes {
  import opened Options
  import opened Text
  import opened UnixPath
  import opened DriverArchive
  import opened DriverCache
  import opened DriverCacheSafety
  import opened DriverCacheRuns

  // ----- names

  /** A driver's name: the prefix and more, at most 255 bytes, no control character, no
      slash and no backslash. */
  predicate DriverName(n: string) {
    && "docker-machine-driver-" < n && ByteLen(n) <= 255
    && forall i :: 0 <= i < |n| ==> n[i] as int > 31 && n[i] as int != 127 && n[i] != '/' && n[i] != '\\'
  }

  /** Exactly the texts that are driver names once the white space around them is gone. */
  lemma SafeDriverNameExactly(raw: string)
    ensures SafeDriverName(raw) == if DriverName(TrimSpace(raw)) then Some(TrimSpace(raw)) else None
  {
    var n := TrimSpace(raw);
    TrimSpaceTrims(raw);
    TrimmedIsFixed(n);
    assert SafeDriverName(raw) == SafeDriverName(n);
    if PREFIX < n && PlainChars(n) {
      AcceptedAsIs(n);
    }
    if SafeDriverName(n).Some? {
      SafeDriverNameIsPlain(n);
      AcceptedAsIs(n);
    }
  }

  function Segments(name: string): seq<string> { Named(Split(name, '/')) }

  lemma LastOfJoined(segs: seq<string>)
    requires AllProper(segs)
    ensures Base(if segs == [] then "." else Join(segs, '/')) == if segs == [] then "." else Last(segs)
  {
    if segs == [] {
      SplitWithoutSeparator(".", '/');
      assert Nonempty(["."]) == ["."] + Nonempty([]);
    } else {
      CleanProper(segs);
      NamedProper(segs);
      JoinIsRelative(segs);
    }
  }

  /** Exactly the safe texts are accepted as entry names, and their base name is their last
      segment. */
  lemma SafeEntryExactly(name: string)
    ensures SafeEntry(name).Some? <==> SafeText(name)
    ensures SafeText(name) ==>
              Base(SafeEntry(name).value) == if Segments(name) == [] then "." else Last(Segments(name))
  {
    ContainsDots(name);
    ContainsChar(name, '\\');
    assert ['\\'] == "\\";
    if SafeText(name) {
      LocalWithoutDotDot(name);
      CleanRelative(name);
      LastOfJoined(Segments(name));
    }
  }

  lemma DotIsNoDriver()
    ensures SafeDriverName(".").None?
  {
    SafeDriverNameExactly(".");
    TrimmedIsFixed(".");
  }

  // ----- entries of an archive

  /** A regular file with a safe name whose last segment is a driver's name. */
  predicate HoldsDriver(e: DriverEntry) {
    && e.kind == RegularFile && SafeText(e.name) && Segments(e.name) != []
    && DriverName(TrimSpace(Last(Segments(e.name))))
  }

  lemma HoldsDriverExactly(e: DriverEntry)
    ensures IsBinary(e) <==> HoldsDriver(e)
    ensures HoldsDriver(e) ==> TrimSpace(Base(Clean(e.name))) == TrimSpace(Last(Segments(e.name)))
  {
    SafeEntryExactly(e.name);
    DotIsNoDriver();
    if SafeText(e.name) && Segments(e.name) != [] {
      SafeDriverNameExactly(Last(Segments(e.name)));
    }
    hide SafeText, Segments, SafeDriverName, DriverName, TrimSpace, Base, Clean;
  }

  /** What is wrong with the k-th entry, if those before it are right. */
  function Wrong(es: seq<DriverEntry>, k: nat): Option<ExtractError>
    requires k < |es|
  {
    if !SafeText(es[k].name) then Some(UnsafeEntry)
    else if es[k].kind == OtherFile then Some(NotRegular)
    else if !HoldsDriver(es[k]) then None
    else if exists j :: 0 <= j < k && HoldsDriver(es[j]) then Some(MultipleBinaries)
    else if |es[k].bytes| > 536870912 then Some(TooLarge)
    else None
  }

  lemma ClassExactly(e: DriverEntry)
    ensures ClassOf(e) ==
            if !SafeText(e.name) then Refused(UnsafeEntry)
            else if e.kind == OtherFile then Refused(NotRegular)
            else if HoldsDriver(e) then Binary(TrimSpace(Last(Segments(e.name))), e.bytes)
            else Ignored
  {
    ClassMeaning(e);
    SafeEntryExactly(e.name);
    HoldsDriverExactly(e);
    assert SafeEntry(e.name).Some? ==> SafeEntry(e.name).value == Clean(e.name);
    hide SafeText, Segments, HoldsDriver, SafeEntry, SafeDriverName, TrimSpace, Base, Clean;
  }

  /** The scan of the first n entries, if nothing is wrong with them. */
  ghost predicate ScansTo(es: seq<DriverEntry>, n: nat, s: Scan)
    requires n <= |es|
  {
    && !s.Stopped?
    && (s.One? <==> exists j :: 0 <= j < n && HoldsDriver(es[j]))
    && forall j :: 0 <= j < n && HoldsDriver(es[j]) ==> s == One(TrimSpace(Last(Segments(es[j].name))), es[j].bytes)
  }

  lemma RightEntry(es: seq<DriverEntry>, n: nat)
    requires n < |es| && Wrong(es, n).None?
    ensures if HoldsDriver(es[n])
            then ClassOf(es[n]) == Binary(TrimSpace(Last(Segments(es[n].name))), es[n].bytes)
            else ClassOf(es[n]).Ignored?
    ensures HoldsDriver(es[n]) ==>
              |es[n].bytes| <= MAX_PAYLOAD && forall j :: 0 <= j < n ==> !HoldsDriver(es[j])
  {
    ClassExactly(es[n]);
    hide ClassOf, SafeText, Segments, HoldsDriver, TrimSpace;
  }

  lemma FirstDriver(es: seq<DriverEntry>, n: nat, s: Scan)
    requires n < |es| && ScansTo(es, n, s) && HoldsDriver(es[n]) && forall j :: 0 <= j < n ==> !HoldsDriver(es[j])
    ensures ScansTo(es, n + 1, One(TrimSpace(Last(Segments(es[n].name))), es[n].bytes)) && s.Nothing?
  {
    hide HoldsDriver, TrimSpace, Segments;
  }

  lemma NoDriver(es: seq<DriverEntry>, n: nat, s: Scan)
    requires n < |es| && ScansTo(es, n, s) && !HoldsDriver(es[n])
    ensures ScansTo(es, n + 1, s)
  {
    hide HoldsDriver, TrimSpace, Segments;
  }

  lemma ScansToNext(es: seq<DriverEntry>, n: nat, s: Scan)
    requires n < |es| && ScansTo(es, n, s) && Wrong(es, n).None?
    ensures ScansTo(es, n + 1, ScanNext(s, ClassOf(es[n])))
  {
    RightEntry(es, n);
    hide ClassOf, Wrong, Segments, HoldsDriver, TrimSpace, ScansTo;
    if HoldsDriver(es[n]) {
      FirstDriver(es, n, s);
    } else {
      NoDriver(es, n, s);
    }
  }

  lemma {:induction false} ScanOfRight(es: seq<DriverEntry>, n: nat)
    requires n <= |es| && forall k :: 0 <= k < n ==> Wrong(es, k).None?
    ensures ScansTo(es, n, ScanAll(Classes(es)[..n]))
  {
    if n > 0 {
      hide ClassOf, ScansTo, Wrong, Classes, ScanNext;
      ScanOfRight(es, n - 1);
      ScanStep(es, n - 1);
      ScansToNext(es, n - 1, ScanAll(Classes(es)[..n - 1]));
    }
  }

  /** Extraction, entry by entry: the first wrong entry decides the error; if none is
      wrong, the one driver is extracted, or it is an error that there is none. */
  lemma ExtractionFails(es: seq<DriverEntry>, k: nat)
    requires k < |es| && Wrong(es, k).Some? && forall j :: 0 <= j < k ==> Wrong(es, j).None?
    ensures Extract(es) == Failed(Wrong(es, k).value)
  {
    ScanOfRight(es, k);
    ScanStep(es, k);
    ClassExactly(es[k]);
    hide ClassOf, SafeText, Segments, HoldsDriver, TrimSpace;
    StoppedStays(Classes(es), k + 1);
  }

  lemma ExtractionWorks(es: seq<DriverEntry>)
    requires forall j :: 0 <= j < |es| ==> Wrong(es, j).None?
    ensures (forall j :: 0 <= j < |es| ==> !HoldsDriver(es[j])) ==> Extract(es) == Failed(NoBinary)
    ensures forall j :: 0 <= j < |es| && HoldsDriver(es[j]) ==>
              Extract(es) == Extracted(TrimSpace(Last(Segments(es[j].name))), es[j].bytes)
  {
    ScanOfRight(es, |es|);
    assert Classes(es)[..|es|] == Classes(es);
  }

  /** What the header of a tar entry or the mode of a zip file says. */
  lemma KindsExactly(t: TarEntry, f: ZipFile)
    ensures FromTar(t).name == t.name && FromTar(t).bytes == t.bytes
    ensures FromTar(t).kind.DirectoryEntry? <==> t.typeflag == '5'
    ensures FromTar(t).kind.RegularFile? <==> t.typeflag == '0' || t.typeflag == '\0'
    ensures FromZip(f).name == f.name && FromZip(f).bytes == f.bytes
    ensures FromZip(f).kind.DirectoryEntry? <==> f.isDir
    ensures FromZip(f).kind.RegularFile? <==> !f.isDir && f.isRegular
  {
  }

  /** A bare executable is named by the last element of the URL's path, up to the first
      underscore, and taken as it is. */
  lemma ExecutableExactly(env: Env, url: string, bytes: Bytes, name: string)
    requires env.unpack(bytes).Elf? && env.urlBase(url) == Some(name)
    ensures var n := TrimSpace(Cut(name, '_').0);
            Payload(env, url, bytes) ==
            if DriverName(n) && |bytes| <= 536870912 then Some((n, bytes)) else None
  {
    SplitFirst(name, '_');
    SafeDriverNameExactly(Cut(name, '_').0);
    hide SafeDriverName, DriverName, TrimSpace;
  }

  // ----- stage

  /** The bytes have the checksum: with 64 digits by SHA-256, with 128 by SHA-512. */
  predicate HasDigest(env: Env, bytes: Bytes, hash: string) {
    var wanted := TrimSpace(ToLower(hash));
    (ByteLen(hash) == 64 && env.sha256(bytes) == wanted) || (ByteLen(hash) == 128 && env.sha512(bytes) == wanted)
  }

  /** No call of a Stage that has to download fails. */
  predicate CallsWork(c: StageCalls) {
    && c.errorRead && c.openOk && c.indexRead && c.tempOk && c.closeOk && c.spoolOk
    && c.replaced && c.copy.Complete? && c.indexWritten
  }

  /** The download arrives, is not too large, has the checksum and holds a driver. */
  predicate GoodDownload(env: Env, d: Driver, c: StageCalls) {
    && c.download.Some? && |c.download.value| <= 536870912
    && HasDigest(env, c.download.value, d.hash) && Payload(env, d.url, c.download.value).Some?
  }

  /** Stage of a driver that has neither index nor recorded error succeeds if and only if
      its calls work and the download is good; and then it returns the driver's name. */
  lemma StageExactly(env: Env, s: Store, d: Driver, current: string, c: StageCalls)
    requires !d.builtin && IsKey(env.sha256(d.url + d.hash))
    requires env.sha256(d.url + d.hash) !in s.cache && env.sha256(d.url + d.hash) + ".error" !in s.cache
    ensures var r := Stage(env, s, d, current, c).result;
            && (r.Ok? <==> CallsWork(c) && GoodDownload(env, d, c))
            && (r.Ok? ==> r.name == Payload(env, d.url, c.download.value).value.0)
            && (r.Error? ==> r.message == c.message)
  {
    hide SafeDriverName, TrimSpace, ToLower, ByteLen;
  }

  /** What it leaves: on success the payload under key and name, and the name under the
      key, and nothing else has changed. */
  lemma StageStores(env: Env, s: Store, d: Driver, current: string, c: StageCalls)
    requires !d.builtin && IsKey(env.sha256(d.url + d.hash))
    requires env.sha256(d.url + d.hash) !in s.cache && env.sha256(d.url + d.hash) + ".error" !in s.cache
    requires Stage(env, s, d, current, c).result.Ok?
    ensures var key, t := env.sha256(d.url + d.hash), ApplyAll(s, Stage(env, s, d, current, c).edits);
            var (name, payload) := Payload(env, d.url, c.download.value).value;
            t == Store(s.cache[key + "-" + name := payload][key := name], s.bin)
  {
    var key := env.sha256(d.url + d.hash);
    var (name, data) := Payload(env, d.url, c.download.value).value;
    var dest := key + "-" + name;
    assert Stage(env, s, d, current, c).edits == Written(dest, data, |data|) + [PutCache(key, name)];
    hide Stage, Payload;
    WrittenOnly(s, dest, data);
    ApplyConcat(s, Written(dest, data, |data|), [PutCache(key, name)]);
    assert [PutCache(key, name)][..0] == [];
  }

  lemma WrittenOnly(s: Store, dest: string, data: Bytes)
    ensures ApplyAll(s, Written(dest, data, |data|)) == Store(s.cache[dest := data], s.bin)
  {
    var written := Written(dest, data, |data|);
    var t := ApplyAll(s, written);
    AfterWriting(s, dest, data);
    TouchingKeepsOthers(s, written, dest);
    assert forall f :: f != dest ==>
      (f in s.cache <==> f in s.cache - {dest}) && (f in t.cache <==> f in t.cache - {dest});
    assert forall f :: f != dest && f in s.cache ==> (s.cache - {dest})[f] == s.cache[f];
    assert forall f :: f != dest && f in t.cache ==> (t.cache - {dest})[f] == t.cache[f];
  }

  /** A download with another digest is an error, and leaves no index. */
  lemma TamperedIsRefused(env: Env, s: Store, d: Driver, current: string, c: StageCalls)
    requires !d.builtin && IsKey(env.sha256(d.url + d.hash))
    requires env.sha256(d.url + d.hash) !in s.cache && env.sha256(d.url + d.hash) + ".error" !in s.cache
    requires c.download.Some? && !HasDigest(env, c.download.value, d.hash)
    ensures Stage(env, s, d, current, c).result.Error?
    ensures env.sha256(d.url + d.hash) !in ApplyAll(s, Stage(env, s, d, current, c).edits).cache
    ensures forall f :: f in ApplyAll(s, Stage(env, s, d, current, c).edits).cache ==>
              f in s.cache || f == env.sha256(d.url + d.hash) + ".error"
  {
    StageExactly(env, s, d, current, c);
    hide Payload, SafeDriverName, TrimSpace, ToLower, ByteLen;
  }

  /** A failed copy whose remains can be removed adds no file. */
  lemma FailedCopyLeavesNothing(env: Env, s: Store, key: string, d: Driver, bytes: Bytes, c: StageCalls)
    requires CopyBinary(env, key, d, bytes, c).result.Error? && c.discarded
    ensures ApplyAll(s, CopyBinary(env, key, d, bytes, c).edits).cache.Keys <= s.cache.Keys
  {
    var es := CopyBinary(env, key, d, bytes, c).edits;
    if es != [] {
      var dest := PayloadFile(key, Payload(env, d.url, bytes).value.0);
      hide Payload, ApplyAll;
      assert forall e :: e in es ==> TouchesOnly(e, dest);
      assert es[|es| - 1] == DropCache(dest);
      DroppedAtLast(s, es, dest);
    }
  }

  lemma DroppedAtLast(s: Store, es: seq<Edit>, file: string)
    requires es != [] && es[|es| - 1] == DropCache(file) && forall e :: e in es ==> TouchesOnly(e, file)
    ensures ApplyAll(s, es).cache.Keys <= s.cache.Keys
  {
    TouchingKeepsOthers(s, es, file);
    var t := ApplyAll(s, es);
    assert file !in t.cache;
    forall f | f in t.cache ensures f in s.cache {
      assert f in t.cache - {file};
    }
  }

  /** Nor does a failed Stage, but for its record. */
  lemma FailedStageLeavesNothing(env: Env, s: Store, d: Driver, current: string, c: StageCalls)
    requires Stage(env, s, d, current, c).result.Error? && c.discarded
    ensures ApplyAll(s, Stage(env, s, d, current, c).edits).cache.Keys
            <= s.cache.Keys + {env.sha256(d.url + d.hash) + ".error"}
  {
    var inner := StageInner(env, s, d, current, c);
    if c.download.Some? && CopyBinary(env, Key(env, d), d, c.download.value, c).result.Error? {
      FailedCopyLeavesNothing(env, s, Key(env, d), d, c.download.value, c);
    }
    hide CopyBinary, HashMatches, IsInstalled, Payload;
    assert inner.result.Error? ==> ApplyAll(s, inner.edits).cache.Keys <= s.cache.Keys;
    assert [DropCache(ErrorFile(Key(env, d)))][..0] == [];
  }

  /** After every run with crashes anywhere, an indexed payload was taken from bytes that
      have the checksum. */
  lemma IndexedHasDigest(env: Env, events: seq<Event>, known: set<Driver>, d: Driver)
    requires Distinct(env, known) && d in known && AllKeys(env, events)
    requires forall e :: e in events ==> e.op.d in known
    ensures var key, s := env.sha256(d.url + d.hash), RunFrom(env, EMPTY_STORE, events);
            key in s.cache && key + "-" + s.cache[key] in s.cache ==>
              exists bytes :: HasDigest(env, bytes, d.hash)
                              && Payload(env, d.url, bytes) == Some((s.cache[key], s.cache[key + "-" + s.cache[key]]))
  {
    RunIsTruthful(env, events, known, d);
    var key, s := env.sha256(d.url + d.hash), RunFrom(env, EMPTY_STORE, events);
    if key in s.cache && key + "-" + s.cache[key] in s.cache {
      assert PayloadFile(key, s.cache[key]) == key + "-" + s.cache[key];
      var bytes :| HashMatches(env, bytes, d.hash)
                   && Payload(env, d.url, bytes) == Some((s.cache[key], s.cache[key + "-" + s.cache[key]]));
      assert HasDigest(env, bytes, d.hash);
    }
  }

  /** A builtin driver is not downloaded; an index that holds no driver's name is an error
      for Stage and Remove, which then delete nothing. */
  lemma OtherOutcomes(env: Env, s: Store, d: Driver, current: string, c: StageCalls, steps: nat)
    requires IsKey(env.sha256(d.url + d.hash)) && env.sha256(d.url + d.hash) + ".error" !in s.cache && c.errorRead
    ensures d.builtin ==> Stage(env, s, d, current, c) == Work([], Ok(current))
    ensures var key := env.sha256(d.url + d.hash);
            key in s.cache && !DriverName(TrimSpace(s.cache[key])) ==>
              && (!d.builtin ==> Stage(env, s, d, current, c).result.Error?)
              && Remove(env, s, d, steps).edits == [] && Remove(env, s, d, steps).result.Error?
  {
    var key := env.sha256(d.url + d.hash);
    if key in s.cache {
      SafeDriverNameExactly(s.cache[key]);
    }
    hide SafeDriverName, DriverName, TrimSpace;
  }

  function Blank(c: char): char { if c as int < 32 || c as int == 127 then ' ' else c }

  /** r is the text with blanks for control characters, cut behind the character that
      brings it to 4096 bytes or more. */
  predicate CutBlanked(text: string, r: string) {
    && |r| <= |text| && (forall i :: 0 <= i < |r| ==> r[i] == Blank(text[i]))
    && (|r| < |text| ==> ByteLen(r) >= 4096)
    && (r != "" ==> ByteLen(r[..|r| - 1]) < 4096)
  }

  lemma {:induction false} BlankedExactly(rest: string, clean: string, text: string)
    requires ByteLen(clean) < 4096 && |clean| + |rest| == |text| && rest == text[|clean|..]
    requires forall i :: 0 <= i < |clean| ==> clean[i] == Blank(text[i])
    ensures CutBlanked(text, Blanked(rest, clean))
    decreases |rest|
  {
    if rest == "" {
      if clean != "" {
        ByteLenConcat(clean[..|clean| - 1], clean[|clean| - 1..]);
        assert clean == clean[..|clean| - 1] + clean[|clean| - 1..];
      }
    } else {
      var c := clean + [Blank(rest[0])];
      assert c[..|c| - 1] == clean && Blanked(rest, clean) == if ByteLen(c) >= 4096 then c else Blanked(rest[1..], c);
      hide ByteLen, Blanked;
      if ByteLen(c) < 4096 {
        BlankedExactly(rest[1..], c, text);
      }
    }
  }

  /** A recorded message is what is left of the text after trimming, blanked and cut. */
  lemma SafeErrorMessageExactly(message: string)
    ensures CutBlanked(TrimSpace(message), SafeErrorMessage(message))
  {
    hide TrimSpace;
    BlankedExactly(TrimSpace(message), "", TrimSpace(message));
  }

  // ----- install and remove

  /** No call of an Install fails whose error the code looks at. */
  predicate InstallsWell(i: InstallCalls) { i.openOk && i.copy.Complete? && i.chmodOk && i.renameOk }

  /** Install of a downloaded driver succeeds if and only if the name is a driver's, the
      calls work and the payload is in the cache; and then the payload is the binary. */
  lemma InstallExactly(env: Env, s: Store, d: Driver, raw: string, i: InstallCalls)
    requires !d.builtin && IsKey(env.sha256(d.url + d.hash))
    ensures var name, w := TrimSpace(raw), Install(env, s, d, raw, i);
            var src := env.sha256(d.url + d.hash) + "-" + name;
            && (w.result.Ok? <==> DriverName(name) && InstallsWell(i) && src in s.cache)
            && (w.result.Ok? ==>
                  && w.result.name == name && name in ApplyAll(s, w.edits).bin
                  && ApplyAll(s, w.edits).bin[name] == s.cache[src])
  {
    SafeDriverNameExactly(raw);
    hide SafeDriverName, DriverName, TrimSpace, ApplyAll;
    if DriverName(TrimSpace(raw)) {
      var w := Install(env, s, d, raw, i);
      InstallIsAtomic(env, s, d, raw, i, |w.edits|);
      assert w.edits[..|w.edits|] == w.edits;
    }
  }

  /** A builtin driver's Install does nothing; a name that is no driver's edits nothing. */
  lemma NothingToInstall(env: Env, s: Store, d: Driver, raw: string, i: InstallCalls)
    requires IsKey(env.sha256(d.url + d.hash))
    ensures d.builtin ==> Install(env, s, d, raw, i) == Work([], Ok(raw))
    ensures !d.builtin && !DriverName(TrimSpace(raw)) ==> Install(env, s, d, raw, i).edits == []
  {
    SafeDriverNameExactly(raw);
  }

  /** After a successful Stage, Install of the name it returned succeeds if and only if its
      own calls work. */
  lemma StagedInstalls(env: Env, s: Store, known: set<Driver>, d: Driver, current: string,
                       c: StageCalls, i: InstallCalls)
    requires Distinct(env, known) && d in known && Invariant(env, s, known) && !d.builtin
    requires Stage(env, s, d, current, c).result.Ok?
    ensures var staged := Stage(env, s, d, current, c);
            Install(env, ApplyAll(s, staged.edits), d, staged.result.name, i).result.Ok? <==> InstallsWell(i)
  {
    var staged := Stage(env, s, d, current, c);
    StageThroughout(env, s, known, d, current, c);
    var t := ApplyAll(s, staged.edits);
    assert staged.edits[..|staged.edits|] == staged.edits;
    assert Sound(env, t, d);
    hide Stage, Genuine, Invariant, Install, IsKey;
    var name := staged.result.name;
    SafeDriverNameExactly(name);
    InstallExactly(env, t, d, name, i);
  }

  /** Remove succeeds if and only if the driver is not indexed or all four deletions work;
      ClearError takes away the record and nothing else. */
  lemma RemoveExactly(env: Env, s: Store, d: Driver, steps: nat)
    requires IsKey(env.sha256(d.url + d.hash))
    ensures var key := env.sha256(d.url + d.hash);
            && (Remove(env, s, d, steps).result.Ok? <==>
                key !in s.cache || (DriverName(TrimSpace(s.cache[key])) && steps >= 4))
            && (key !in s.cache ==> Remove(env, s, d, steps).edits == [])
            && ApplyAll(s, ClearError(env, d)) == Store(s.cache - {key + ".error"}, s.bin)
  {
    var key := env.sha256(d.url + d.hash);
    if key in s.cache {
      SafeDriverNameExactly(s.cache[key]);
    }
    hide SafeDriverName, DriverName, TrimSpace;
    assert [DropCache(ErrorFile(key))][..0] == [];
  }
}
