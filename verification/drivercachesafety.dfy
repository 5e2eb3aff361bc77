/** What the driver cache guarantees at every point where the process may die. */
module DriverCacheSafety {
  import opened Options
  import opened Text
  import opened DriverArchive
  import opened DriverCache

  // ----- file names

  /** Index, payload and error files of all keys and names are different files. */
  lemma FileNamesNeverClash(k1: string, n1: string, k2: string, n2: string)
    requires IsKey(k1) && IsKey(k2)
    ensures PayloadFile(k1, n1) == PayloadFile(k2, n2) <==> k1 == k2 && n1 == n2
    ensures ErrorFile(k1) == ErrorFile(k2) <==> k1 == k2
    ensures k1 != PayloadFile(k2, n2) && k1 != ErrorFile(k2) && ErrorFile(k1) != PayloadFile(k2, n2)
  {
    var p1, p2 := PayloadFile(k1, n1), PayloadFile(k2, n2);
    assert p1[..64] == k1 && p1[65..] == n1 && p2[..64] == k2 && p2[65..] == n2 && p2[64] == '-';
    assert ErrorFile(k1)[..64] == k1 && ErrorFile(k2)[..64] == k2 && ErrorFile(k1)[64] == '.';
    assert |p2| >= 65 && |ErrorFile(k2)| == 70;
  }

  /** No digest collision between the two. */
  predicate NoCollision(env: Env, d: Driver, e: Driver) {
    Key(env, d) == Key(env, e) ==> d.url + d.hash == e.url + e.hash
  }

  /** The first k characters of d's checksum stand at the end of e's URL instead. */
  predicate Shifted(d: Driver, e: Driver, k: nat) {
    k <= |d.hash| && e.url == d.url + d.hash[..k] && e.hash == d.hash[k..]
  }

  /** When two drivers share a key: exactly if one reads a beginning of the other's
      checksum as the end of its URL. */
  lemma SharedKeyExactly(env: Env, d: Driver, e: Driver)
    requires NoCollision(env, d, e) && |e.hash| <= |d.hash|
    ensures Key(env, d) == Key(env, e) <==> Shifted(d, e, |d.hash| - |e.hash|)
  {
    var k := |d.hash| - |e.hash|;
    var x, y := d.url + d.hash, e.url + e.hash;
    if x == y {
      assert y[..|e.url|] == e.url && y[|e.url|..] == e.hash;
      assert x[..|e.url|] == d.url + d.hash[..k] && x[|e.url|..] == d.hash[k..];
    }
    if Shifted(d, e, k) {
      assert d.hash == d.hash[..k] + d.hash[k..];
      Associative(d.url, d.hash[..k], d.hash[k..]);
    }
  }

  /** Drivers with digests for keys and without collisions share no key, exactly if none
      of them is another one with part of its checksum moved into the URL. */
  lemma DistinctExactly(env: Env, known: set<Driver>)
    requires forall d :: d in known ==> IsKey(Key(env, d))
    requires forall d, e :: d in known && e in known ==> NoCollision(env, d, e)
    ensures Distinct(env, known) <==> forall d, e, k :: d in known && e in known && 0 < k ==> !Shifted(d, e, k)
  {
    forall d, e | d in known && e in known
      ensures |e.hash| <= |d.hash| ==>
                (Key(env, d) == Key(env, e) <==> Shifted(d, e, |d.hash| - |e.hash|))
    {
      if |e.hash| <= |d.hash| {
        SharedKeyExactly(env, d, e);
      }
    }
    if Distinct(env, known) {
      forall d, e, k | d in known && e in known && 0 < k ensures !Shifted(d, e, k) {
        assert Shifted(d, e, k) ==> k == |d.hash| - |e.hash| && d.hash != e.hash;
      }
    } else {
      var d, e :| d in known && e in known && Key(env, d) == Key(env, e) && (d.url != e.url || d.hash != e.hash);
      if |e.hash| <= |d.hash| {
        assert Shifted(d, e, |d.hash| - |e.hash|);
      } else {
        assert Shifted(e, d, |e.hash| - |d.hash|);
      }
    }
  }

  /** In particular, checksums of one length are enough. */
  lemma KeysIdentifyDrivers(env: Env, known: set<Driver>, hashLength: nat)
    requires forall d :: d in known ==> IsKey(Key(env, d)) && |d.hash| == hashLength
    requires forall d, e :: d in known && e in known ==> NoCollision(env, d, e)
    ensures Distinct(env, known)
  {
    DistinctExactly(env, known);
  }

  /** Both lengths that the code accepts, 64 and 128 digits, are needed for two drivers
      to share a key, and then it happens. */
  lemma MixedLengthsShareAKey(env: Env, url: string, a: string, b: string)
    requires |a| == |b| == 64
    ensures var d, e := Driver(false, url, a + b), Driver(false, url + a, b);
            d != e && Key(env, d) == Key(env, e)
  {
    var d, e := Driver(false, url, a + b), Driver(false, url + a, b);
    assert d.url + d.hash == e.url + e.hash && Shifted(d, e, 64);
    SharedKeyExactly(env, d, e);
  }

  // ----- edits

  lemma {:induction false} ApplyConcat(s: Store, a: seq<Edit>, b: seq<Edit>)
    ensures ApplyAll(s, a + b) == ApplyAll(ApplyAll(s, a), b)
    decreases |b|
  {
    if b == [] {
      assert a + b == a;
    } else {
      var n := |b| - 1;
      ApplyConcat(s, a, b[..n]);
      assert (a + b)[..|a + b| - 1] == a + b[..n] && (a + b)[|a + b| - 1] == b[n];
    }
  }

  predicate TouchesOnly(e: Edit, file: string) {
    match e
    case PutCache(n, _) => n == file
    case DropCache(n) => n == file
    case _ => false
  }

  /** The stores have the same files, except perhaps one in the cache. */
  predicate SameBut(s: Store, t: Store, file: string) {
    s.bin == t.bin && s.cache - {file} == t.cache - {file}
  }

  lemma {:induction false} TouchingKeepsOthers(s: Store, es: seq<Edit>, file: string)
    requires forall e :: e in es ==> TouchesOnly(e, file)
    ensures SameBut(s, ApplyAll(s, es), file)
  {
    if es != [] {
      var n := |es| - 1;
      assert es[n] in es;
      TouchingKeepsOthers(s, es[..n], file);
    }
  }

  /** A driver stays sound when one file changes that its index does not speak of. */
  lemma SoundElsewhere(env: Env, s: Store, t: Store, file: string, e: Driver)
    requires IsKey(Key(env, e)) && Sound(env, s, e) && SameBut(s, t, file)
    requires file != Key(env, e)
    requires Key(env, e) in s.cache ==> file != PayloadFile(Key(env, e), s.cache[Key(env, e)])
    ensures Sound(env, t, e)
  {
    var key := Key(env, e);
    assert forall f :: f != file ==>
      (f in s.cache <==> f in s.cache - {file}) && (f in t.cache <==> f in t.cache - {file});
    if key in t.cache {
      var name := s.cache[key];
      FileNamesNeverClash(key, name, key, name);
      assert t.cache[key] == (t.cache - {file})[key] == (s.cache - {file})[key] == name;
      var f := PayloadFile(key, name);
      assert (t.cache - {file})[f] == (s.cache - {file})[f];
    }
  }

  /** The invariant holds after every prefix of the edits: the process may die anywhere. */
  ghost predicate Throughout(env: Env, s: Store, es: seq<Edit>, known: set<Driver>) {
    forall n :: 0 <= n <= |es| ==> Invariant(env, ApplyAll(s, es[..n]), known)
  }

  lemma ThroughoutConcat(env: Env, s: Store, a: seq<Edit>, b: seq<Edit>, known: set<Driver>)
    requires Throughout(env, s, a, known) && Throughout(env, ApplyAll(s, a), b, known)
    ensures Throughout(env, s, a + b, known)
  {
    var es := a + b;
    forall n | 0 <= n <= |es| ensures Invariant(env, ApplyAll(s, es[..n]), known) {
      if n <= |a| {
        assert es[..n] == a[..n];
      } else {
        assert es[..n] == a + b[..n - |a|];
        ApplyConcat(s, a, b[..n - |a|]);
      }
    }
  }

  /** Work on a driver's error file, or on a payload file of one without index, harms no
      driver. */
  lemma SideWork(env: Env, s: Store, es: seq<Edit>, known: set<Driver>, d: Driver, file: string)
    requires Distinct(env, known) && d in known && Invariant(env, s, known)
    requires var key := Key(env, d);
             file == ErrorFile(key) || (key !in s.cache && exists name :: file == PayloadFile(key, name))
    requires forall e :: e in es ==> TouchesOnly(e, file)
    ensures Throughout(env, s, es, known)
    ensures Key(env, d) in ApplyAll(s, es).cache <==> Key(env, d) in s.cache
  {
    var key := Key(env, d);
    forall n | 0 <= n <= |es|
      ensures Invariant(env, ApplyAll(s, es[..n]), known)
      ensures key in ApplyAll(s, es[..n]).cache <==> key in s.cache
    {
      var t := ApplyAll(s, es[..n]);
      TouchingKeepsOthers(s, es[..n], file);
      forall e | e in known ensures Sound(env, t, e) {
        WhoseFile(key, Key(env, e), file, if Key(env, e) in s.cache then s.cache[Key(env, e)] else "");
        SoundElsewhere(env, s, t, file, e);
      }
      WhoseFile(key, key, file, "");
      assert key in t.cache <==> key in t.cache - {file};
    }
    assert es[..|es|] == es;
  }

  lemma WhoseFile(key: string, other: string, file: string, name: string)
    requires IsKey(key) && IsKey(other)
    requires file == ErrorFile(key) || exists n :: file == PayloadFile(key, n)
    ensures file != other && (key != other || file == ErrorFile(key) ==> file != PayloadFile(other, name))
  {
    FileNamesNeverClash(key, "", other, name);
    if n :| file == PayloadFile(key, n) {
      FileNamesNeverClash(key, n, other, name);
      FileNamesNeverClash(other, n, key, n);
    }
    FileNamesNeverClash(other, name, key, "");
  }

  // ----- stage

  lemma PayloadNameIsSafe(env: Env, url: string, bytes: Bytes)
    requires Payload(env, url, bytes).Some?
    ensures var name := Payload(env, url, bytes).value.0; SafeDriverName(name) == Some(name)
  {
    match env.unpack(bytes)
    case Elf => SafeDriverNameIsStable(Split(env.urlBase(url).value, '_')[0]);
    case Zip(files) => ExtractedNameIsSafe(ZipEntries(files));
    case Tar(stream) => ExtractedNameIsSafe(TarEntries(stream));
  }

  function Written(dest: string, data: Bytes, n: nat): seq<Edit>
    requires n <= |data|
  {
    [DropCache(dest)] + CacheWrites(dest, Filling(data, n))
  }

  lemma AfterWriting(s: Store, dest: string, data: Bytes)
    ensures var t := ApplyAll(s, Written(dest, data, |data|)); dest in t.cache && t.cache[dest] == data
  {
  }

  lemma IndexOfOthers(env: Env, s: Store, key: string, name: string, e: Driver)
    requires IsKey(key) && IsKey(Key(env, e)) && Key(env, e) != key && Sound(env, s, e)
    ensures Sound(env, Apply(s, PutCache(key, name)), e)
  {
  }

  lemma IndexOfOwn(env: Env, s: Store, name: string, data: Bytes, e: Driver)
    requires IsKey(Key(env, e)) && Genuine(env, e, name, data) && SafeDriverName(name) == Some(name)
    requires var key := Key(env, e);
             PayloadFile(key, name) in s.cache && s.cache[PayloadFile(key, name)] == data
    ensures Sound(env, Apply(s, PutCache(Key(env, e), name)), e)
  {
    FileNamesNeverClash(Key(env, e), name, Key(env, e), name);
  }

  /** Publishing the index of a complete, genuine payload. */
  lemma IndexIsSound(env: Env, s: Store, known: set<Driver>, d: Driver, bytes: Bytes, name: string, data: Bytes)
    requires Distinct(env, known) && d in known && Invariant(env, s, known)
    requires HashMatches(env, bytes, d.hash) && Payload(env, d.url, bytes) == Some((name, data))
    requires var key := Key(env, d);
             PayloadFile(key, name) in s.cache && s.cache[PayloadFile(key, name)] == data
    ensures Invariant(env, Apply(s, PutCache(Key(env, d), name)), known)
  {
    var key := Key(env, d);
    PayloadNameIsSafe(env, d.url, bytes);
    forall e | e in known ensures Sound(env, Apply(s, PutCache(key, name)), e) {
      if Key(env, e) == key {
        assert Genuine(env, e, name, data);
        IndexOfOwn(env, s, name, data, e);
      } else {
        IndexOfOthers(env, s, key, name, e);
      }
    }
  }

  lemma SingleEditThroughout(env: Env, s: Store, e: Edit, known: set<Driver>)
    requires Invariant(env, s, known) && Invariant(env, Apply(s, e), known)
    ensures Throughout(env, s, [e], known)
  {
  }

  /** Writing the whole payload and then the index. */
  lemma PublishThroughout(env: Env, s: Store, known: set<Driver>, d: Driver, bytes: Bytes, name: string, data: Bytes)
    requires Distinct(env, known) && d in known && Invariant(env, s, known)
    requires Key(env, d) !in s.cache
    requires HashMatches(env, bytes, d.hash) && Payload(env, d.url, bytes) == Some((name, data))
    ensures var key := Key(env, d);
            var es := Written(PayloadFile(key, name), data, |data|) + [PutCache(key, name)];
            Throughout(env, s, es, known) && Publishes(env, ApplyAll(s, es), d, name)
  {
    var key := Key(env, d);
    var dest, index := PayloadFile(key, name), [PutCache(key, name)];
    var written := Written(dest, data, |data|);
    SideWork(env, s, written, known, d, dest);
    AfterWriting(s, dest, data);
    var t := ApplyAll(s, written);
    assert written[..|written|] == written;
    hide HashMatches, Payload, Written, PayloadFile, ErrorFile;
    IndexIsSound(env, t, known, d, bytes, name, data);
    SingleEditThroughout(env, t, PutCache(key, name), known);
    ThroughoutConcat(env, s, written, index, known);
    ApplyConcat(s, written, index);
    assert index[..0] == [] && ApplyAll(t, index) == Apply(t, PutCache(key, name));
  }

  lemma CopyBinaryThroughout(env: Env, s: Store, known: set<Driver>, d: Driver, bytes: Bytes, c: StageCalls)
    requires Distinct(env, known) && d in known && Invariant(env, s, known)
    requires Key(env, d) !in s.cache && HashMatches(env, bytes, d.hash)
    ensures var w := CopyBinary(env, Key(env, d), d, bytes, c);
            && Throughout(env, s, w.edits, known)
            && (w.result.Error? ==> Key(env, d) !in ApplyAll(s, w.edits).cache)
            && (w.result.Ok? ==> Publishes(env, ApplyAll(s, w.edits), d, w.result.name))
  {
    hide Payload, HashMatches, Invariant, Distinct;
    var key := Key(env, d);
    var payload := Payload(env, d.url, bytes);
    if c.spoolOk && payload.Some? && c.replaced {
      var (name, data) := payload.value;
      var w := CopyBinary(env, key, d, bytes, c);
      if w.result.Ok? {
        PublishThroughout(env, s, known, d, bytes, name, data);
      } else {
        SideWork(env, s, w.edits, known, d, PayloadFile(key, name));
      }
    } else {
      NothingThroughout(env, s, known);
    }
  }

  /** The driver is indexed under name. */
  predicate Publishes(env: Env, s: Store, d: Driver, name: string) {
    Key(env, d) in s.cache && s.cache[Key(env, d)] == name
  }

  lemma NothingThroughout(env: Env, s: Store, known: set<Driver>)
    requires Invariant(env, s, known)
    ensures Throughout(env, s, [], known) && ApplyAll(s, []) == s
  {
  }

  /** A sound driver is not corrupt: without index it is not installed, with one it is
      installed under the name that the index holds. */
  lemma SoundLookup(env: Env, s: Store, d: Driver)
    requires IsKey(Key(env, d)) && Sound(env, s, d)
    ensures IsInstalled(s.cache, Key(env, d)) ==
            if Key(env, d) in s.cache then Installed(s.cache[Key(env, d)]) else NotInstalled
  {
  }

  lemma StageInnerThroughout(env: Env, s: Store, known: set<Driver>, d: Driver, current: string, c: StageCalls)
    requires Distinct(env, known) && d in known && Invariant(env, s, known)
    ensures var w := StageInner(env, s, d, current, c);
            && Throughout(env, s, w.edits, known)
            && (w.result.Error? ==> (Key(env, d) in ApplyAll(s, w.edits).cache <==> Key(env, d) in s.cache))
            && (w.result.Ok? && !d.builtin ==> Publishes(env, ApplyAll(s, w.edits), d, w.result.name))
  {
    NothingThroughout(env, s, known);
    SoundLookup(env, s, d);
    if Key(env, d) !in s.cache && c.download.Some? && HashMatches(env, c.download.value, d.hash) {
      CopyBinaryThroughout(env, s, known, d, c.download.value, c);
    }
  }

  /** Stage keeps the invariant at every point; when it succeeds the driver is indexed
      under the name it returns. */
  lemma StageThroughout(env: Env, s: Store, known: set<Driver>, d: Driver, current: string, c: StageCalls)
    requires Distinct(env, known) && d in known && Invariant(env, s, known)
    ensures var w := Stage(env, s, d, current, c);
            && Throughout(env, s, w.edits, known)
            && (w.result.Ok? && !d.builtin ==> Publishes(env, ApplyAll(s, w.edits), d, w.result.name))
  {
    var file := ErrorFile(Key(env, d));
    NothingThroughout(env, s, known);
    if !c.errorRead {
    } else if file in s.cache {
      SideWork(env, s, [DropCache(file)], known, d, file);
    } else {
      StageInnerThroughout(env, s, known, d, current, c);
      hide StageInner, Invariant, Distinct;
      var inner := StageInner(env, s, d, current, c);
      if inner.result.Error? && c.errorWritten {
        var t := ApplyAll(s, inner.edits);
        assert inner.edits[..|inner.edits|] == inner.edits && Invariant(env, t, known);
        SideWork(env, t, [PutCache(file, c.message)], known, d, file);
        ThroughoutConcat(env, s, inner.edits, [PutCache(file, c.message)], known);
      }
    }
  }

  /** Stage never touches the installed binaries. */
  lemma StageKeepsBin(env: Env, s: Store, d: Driver, current: string, c: StageCalls)
    ensures ApplyAll(s, Stage(env, s, d, current, c).edits).bin == s.bin
  {
    hide Payload, IsInstalled, HashMatches;
    var es := Stage(env, s, d, current, c).edits;
    assert forall e :: e in es ==> e.PutCache? || e.DropCache?;
    CacheEditsKeepBin(s, es);
  }

  lemma {:induction false} CacheEditsKeepBin(s: Store, es: seq<Edit>)
    requires forall e :: e in es ==> e.PutCache? || e.DropCache?
    ensures ApplyAll(s, es).bin == s.bin
  {
    if es != [] {
      assert es[|es| - 1] in es;
      CacheEditsKeepBin(s, es[..|es| - 1]);
    }
  }

  /** When a Stage of a staged driver returns the name and touches nothing, whatever the
      network would have answered: exactly if no error is recorded and the reads work. */
  lemma StageIsStable(env: Env, s: Store, d: Driver, name: string, current: string, c: StageCalls)
    requires !d.builtin && IsKey(Key(env, d)) && Sound(env, s, d) && Publishes(env, s, d, name)
    ensures Stage(env, s, d, current, c) == Work([], Ok(name)) <==>
            ReadsWork(c) && ErrorFile(Key(env, d)) !in s.cache
  {
    SoundLookup(env, s, d);
  }

  /** A recorded error is replayed without a download, and if its removal works only once:
      the record is gone afterwards and nothing else has changed. */
  lemma ErrorIsReplayedOnce(env: Env, s: Store, d: Driver, current: string, c: StageCalls)
    requires ErrorFile(Key(env, d)) in s.cache && c.errorRead
    ensures var file := ErrorFile(Key(env, d));
            var w := Stage(env, s, d, current, c);
            && w.result == Error(SafeErrorMessage(s.cache[file]))
            && ApplyAll(s, w.edits) == Store(if c.errorDropped then s.cache - {file} else s.cache, s.bin)
  {
  }

  /** A failed stage, its record written, leaves exactly its own message to replay. */
  lemma ErrorIsRecorded(env: Env, s: Store, d: Driver, current: string, c: StageCalls)
    requires ErrorFile(Key(env, d)) !in s.cache && c.errorRead
    requires Stage(env, s, d, current, c).result.Error? && c.errorWritten
    ensures var file, w := ErrorFile(Key(env, d)), Stage(env, s, d, current, c);
            var t := ApplyAll(s, w.edits);
            file in t.cache && t.cache[file] == w.result.message
  {
  }

  // ----- install

  predicate BinOnly(e: Edit) { e.PutBin? || e.DropBin? || e.RenameBin? }

  lemma {:induction false} BinEditsKeepCache(s: Store, es: seq<Edit>)
    requires forall e :: e in es ==> BinOnly(e)
    ensures ApplyAll(s, es).cache == s.cache
  {
    if es != [] {
      assert es[|es| - 1] in es;
      BinEditsKeepCache(s, es[..|es| - 1]);
    }
  }

  predicate BinAt(e: Edit, file: string) {
    (e.PutBin? || e.DropBin?) && e.name == file
  }

  lemma {:induction false} BinEditsKeepOthers(s: Store, es: seq<Edit>, file: string)
    requires forall e :: e in es ==> BinAt(e, file)
    ensures ApplyAll(s, es).bin - {file} == s.bin - {file}
  {
    if es != [] {
      assert es[|es| - 1] in es;
      BinEditsKeepOthers(s, es[..|es| - 1], file);
    }
  }

  lemma InstallIsBinOnly(env: Env, s: Store, d: Driver, raw: string, c: InstallCalls)
    requires IsKey(Key(env, d))
    ensures forall e :: e in Install(env, s, d, raw, c).edits ==> BinOnly(e)
  {
    hide SafeDriverName;
  }

  /** Install never touches the cache, so the invariant holds throughout it. */
  lemma InstallThroughout(env: Env, s: Store, known: set<Driver>, d: Driver, raw: string, c: InstallCalls)
    requires IsKey(Key(env, d)) && Invariant(env, s, known)
    ensures Throughout(env, s, Install(env, s, d, raw, c).edits, known)
  {
    var es := Install(env, s, d, raw, c).edits;
    InstallIsBinOnly(env, s, d, raw, c);
    hide Install;
    forall n | 0 <= n <= |es| ensures Invariant(env, ApplyAll(s, es[..n]), known) {
      BinEditsKeepCache(s, es[..n]);
      var t := ApplyAll(s, es[..n]);
      assert forall e :: e in known ==> Sound(env, s, e) ==> Sound(env, t, e);
    }
  }

  /** The binaries are as before but for the temporary file, or the driver has been
      replaced by the complete payload and the temporary file is gone. */
  predicate OldOrNew(s: Store, t: Store, name: string, tmp: string, src: string) {
    || t.bin - {tmp} == s.bin - {tmp}
    || (src in s.cache && t.bin == (s.bin - {tmp})[name := s.cache[src]])
  }

  /** Edits of the temporary file, a renaming of it to name, and its removal, maybe. */
  lemma RenamePublishes(s: Store, copied: seq<Edit>, name: string, tmp: string, dropped: bool, n: nat)
    requires name != tmp && copied != [] && copied[|copied| - 1].PutBin?
    requires forall e :: e in copied ==> BinAt(e, tmp)
    requires n <= |copied + [RenameBin(tmp, name)] + DropTmp(tmp, dropped)|
    ensures var t := ApplyAll(s, (copied + [RenameBin(tmp, name)] + DropTmp(tmp, dropped))[..n]);
            if n <= |copied| then t.bin - {tmp} == s.bin - {tmp}
            else t.bin == (s.bin - {tmp})[name := copied[|copied| - 1].bytes]
  {
    var es := copied + [RenameBin(tmp, name)] + DropTmp(tmp, dropped);
    if n <= |copied| {
      assert es[..n] == copied[..n];
      BinEditsKeepOthers(s, copied[..n], tmp);
    } else {
      var t := ApplyAll(s, copied);
      assert copied[|copied| - 1] in copied;
      assert tmp in t.bin && t.bin[tmp] == copied[|copied| - 1].bytes;
      BinEditsKeepOthers(s, copied, tmp);
      var one := es[..|copied| + 1];
      assert one[..|copied|] == copied && one[|copied|] == RenameBin(tmp, name);
      if n == |copied| + 2 {
        assert es[..n][..|copied| + 1] == one && es[..n][|copied| + 1] == DropBin(tmp);
      }
    }
  }

  lemma InstalledEdits(s: Store, name: string, tmp: string, src: string, c: InstallCalls)
    requires InstallFile(s, name, tmp, src, c).result.Ok?
    ensures var copied := DropTmp(tmp, c.staleDropped) + BinWrites(tmp, Filling(s.cache[src], |s.cache[src]|));
            && InstallFile(s, name, tmp, src, c).edits
               == copied + [RenameBin(tmp, name)] + DropTmp(tmp, c.tmpDropped)
            && (forall e :: e in copied ==> BinAt(e, tmp))
            && copied != [] && copied[|copied| - 1] == PutBin(tmp, s.cache[src])
  {
  }

  lemma FailedEdits(s: Store, name: string, tmp: string, src: string, c: InstallCalls)
    requires InstallFile(s, name, tmp, src, c).result.Error?
    ensures forall e :: e in InstallFile(s, name, tmp, src, c).edits ==> BinAt(e, tmp)
  {
  }

  lemma InstallFileIsAtomic(s: Store, name: string, tmp: string, src: string, c: InstallCalls, n: nat)
    requires name != tmp && n <= |InstallFile(s, name, tmp, src, c).edits|
    ensures var w := InstallFile(s, name, tmp, src, c);
            var t := ApplyAll(s, w.edits[..n]);
            && OldOrNew(s, t, name, tmp, src)
            && (n == |w.edits| && w.result.Ok? ==> src in s.cache && t.bin == (s.bin - {tmp})[name := s.cache[src]])
            && (w.result.Error? ==> t.bin - {tmp} == s.bin - {tmp})
  {
    var w := InstallFile(s, name, tmp, src, c);
    assert w.result.Ok? ==> src in s.cache;
    hide ApplyAll, BinWrites, Filling, DropTmp, Publish;
    if w.result.Ok? {
      var copied := DropTmp(tmp, c.staleDropped) + BinWrites(tmp, Filling(s.cache[src], |s.cache[src]|));
      InstalledEdits(s, name, tmp, src, c);
      hide InstallFile;
      RenamePublishes(s, copied, name, tmp, c.tmpDropped, n);
    } else {
      FailedEdits(s, name, tmp, src, c);
      hide InstallFile;
      BinEditsKeepOthers(s, w.edits[..n], tmp);
    }
  }

  /** Install is atomic: after every prefix of its edits the driver's binary is what it
      was or the complete cached payload, and no binary but it and the temporary one has
      changed. When it returns, success means the payload, failure the old binary. */
  lemma InstallIsAtomic(env: Env, s: Store, d: Driver, raw: string, c: InstallCalls, n: nat)
    requires !d.builtin && IsKey(Key(env, d)) && SafeDriverName(raw).Some?
    requires n <= |Install(env, s, d, raw, c).edits|
    ensures var name, w := SafeDriverName(raw).value, Install(env, s, d, raw, c);
            var tmp, src := TmpName(name, Key(env, d)), PayloadFile(Key(env, d), name);
            var t := ApplyAll(s, w.edits[..n]);
            && OldOrNew(s, t, name, tmp, src)
            && (n == |w.edits| && w.result.Ok? ==> src in s.cache && t.bin == (s.bin - {tmp})[name := s.cache[src]])
            && (w.result.Error? ==> t.bin - {tmp} == s.bin - {tmp})
  {
    var name := SafeDriverName(raw).value;
    var tmp, src := TmpName(name, Key(env, d)), PayloadFile(Key(env, d), name);
    assert |tmp| > |name|;
    if c.openOk {
      hide SafeDriverName, TmpName, PayloadFile, InstallFile, OldOrNew, ApplyAll;
      InstallFileIsAtomic(s, name, tmp, src, c, n);
    }
  }

  /** What the calls of an Install, made up to opening the temporary file, do to a binary
      that bears its name: nothing; or it is gone; or a partial copy is left in its place. */
  datatype TmpFate = Untouched | Dropped | LeftOver

  function FateOfTmp(c: InstallCalls, installed: bool): TmpFate {
    if !c.openOk || (c.copy.OpenFails? && !c.staleDropped) then Untouched
    else if !installed && !c.copy.OpenFails? && !c.tmpDropped then LeftOver
    else Dropped
  }

  lemma LastBinEdit(s: Store, es: seq<Edit>, file: string)
    requires es != []
    ensures es[|es| - 1] == DropBin(file) ==> file !in ApplyAll(s, es).bin
    ensures es[|es| - 1].PutBin? && es[|es| - 1].name == file ==>
              file in ApplyAll(s, es).bin && ApplyAll(s, es).bin[file] == es[|es| - 1].bytes
  {
  }

  lemma TmpAfterFailure(s: Store, name: string, tmp: string, src: string, c: InstallCalls)
    requires c.openOk && InstallFile(s, name, tmp, src, c).result.Error?
    ensures var t := ApplyAll(s, InstallFile(s, name, tmp, src, c).edits);
            match FateOfTmp(c, false)
            case Untouched => t == s
            case Dropped => tmp !in t.bin
            case LeftOver => tmp in t.bin && if src in s.cache then t.bin[tmp] <= s.cache[src] else t.bin[tmp] == ""
  {
    var es := InstallFile(s, name, tmp, src, c).edits;
    if es != [] {
      LastBinEdit(s, es, tmp);
    }
  }

  /** Which other binaries survive an Install: all of them, unless one bears the name of
      the temporary file. That one survives only if the directories cannot be opened, or
      the temporary file can neither be removed nor opened. Otherwise it is gone when
      Install returns, whatever its result, or replaced by the part of the payload that a
      failed Install could not remove again. */
  lemma InstallSparesOthers(env: Env, s: Store, d: Driver, raw: string, c: InstallCalls, other: string)
    requires !d.builtin && IsKey(Key(env, d)) && SafeDriverName(raw).Some?
    requires other in s.bin && other != SafeDriverName(raw).value
    ensures var name, w := SafeDriverName(raw).value, Install(env, s, d, raw, c);
            var src, t := PayloadFile(Key(env, d), name), ApplyAll(s, w.edits);
            match if other == name + "-tmp-" + Key(env, d)[..12] then FateOfTmp(c, w.result.Ok?) else Untouched
            case Untouched => other in t.bin && t.bin[other] == s.bin[other]
            case Dropped => other !in t.bin
            case LeftOver => other in t.bin &&
                             if src in s.cache then t.bin[other] <= s.cache[src] else t.bin[other] == ""
  {
    var name, w := SafeDriverName(raw).value, Install(env, s, d, raw, c);
    var tmp, src := TmpName(name, Key(env, d)), PayloadFile(Key(env, d), name);
    var t := ApplyAll(s, w.edits);
    InstallIsAtomic(env, s, d, raw, c, |w.edits|);
    assert w.edits[..|w.edits|] == w.edits;
    if c.openOk && w.result.Error? {
      TmpAfterFailure(s, name, tmp, src, c);
    }
    if other != tmp {
      assert other in s.bin - {tmp} && (s.bin - {tmp})[other] == s.bin[other];
      assert other in t.bin - {tmp} ==> t.bin[other] == (t.bin - {tmp})[other];
    }
  }

  lemma HexIsPlain(key: string)
    requires IsKey(key)
    ensures |key[..12]| == 12 && forall ch :: ch in key[..12] ==> '0' <= ch <= '9' || 'a' <= ch <= 'f'
  {
    assert forall i :: 0 <= i < 12 ==> key[..12][i] == key[i] && key[i] in key;
  }

  lemma TmpBytes(name: string, key: string)
    requires IsKey(key)
    ensures ByteLen(TmpName(name, key)) == ByteLen(name) + 17
  {
    HexIsPlain(key);
    AsciiLen("-tmp-");
    AsciiLen(key[..12]);
    ByteLenConcat(name, "-tmp-");
    ByteLenConcat(name + "-tmp-", key[..12]);
  }

  lemma PlainConcat(a: string, b: string)
    requires PlainChars(a) && PlainChars(b)
    ensures PlainChars(a + b)
  {
  }

  lemma TmpIsPlain(name: string, key: string)
    requires IsKey(key) && PlainChars(name) && Trimmed(name) && name != ""
    ensures var t := TmpName(name, key); PlainChars(t) && Trimmed(t) && name <= t
  {
    HexIsPlain(key);
    var hex, t := key[..12], TmpName(name, key);
    assert forall i :: 0 <= i < 12 ==> hex[i] in hex;
    PlainConcat(name, "-tmp-");
    PlainConcat(name + "-tmp-", hex);
    assert t[0] == name[0] && t[|t| - 1] == hex[11];
  }

  /** The name of a temporary file is itself a name that a driver can have, exactly if it
      is short enough; so there can be a binary of that name. */
  lemma TmpNameIsADriverName(name: string, key: string)
    requires SafeDriverName(name) == Some(name) && IsKey(key)
    ensures SafeDriverName(TmpName(name, key)) ==
            if ByteLen(name) <= 238 then Some(TmpName(name, key)) else None
  {
    SafeDriverNameIsPlain(name);
    hide SafeDriverName, PREFIX, TmpName, PlainChars, Trimmed, IsKey;
    TmpIsPlain(name, key);
    TmpBytes(name, key);
    AcceptedAsIs(TmpName(name, key));
  }

  /** A stage that succeeds followed by an install that succeeds puts exactly the binary
      from a download with the right checksum under the driver's name. */
  lemma StageThenInstall(env: Env, s: Store, known: set<Driver>, d: Driver, current: string,
                         c: StageCalls, i: InstallCalls)
    requires Distinct(env, known) && d in known && Invariant(env, s, known) && !d.builtin
    requires Stage(env, s, d, current, c).result.Ok?
    ensures var staged := Stage(env, s, d, current, c);
            var t := ApplyAll(s, staged.edits);
            var w := Install(env, t, d, staged.result.name, i);
            var u := ApplyAll(t, w.edits);
            w.result.Ok? ==>
              && w.result.name == staged.result.name && staged.result.name in u.bin
              && Genuine(env, d, staged.result.name, u.bin[staged.result.name])
  {
    StageThroughout(env, s, known, d, current, c);
    var staged := Stage(env, s, d, current, c);
    var t := ApplyAll(s, staged.edits);
    assert staged.edits[..|staged.edits|] == staged.edits;
    assert Sound(env, t, d);
    hide Stage, Genuine, Invariant;
    var w := Install(env, t, d, staged.result.name, i);
    InstallIsAtomic(env, t, d, staged.result.name, i, |w.edits|);
    assert w.edits[..|w.edits|] == w.edits;
  }

  // ----- remove

  /** The files of the cache that the first n deletions of a Remove take away. */
  function Gone(key: string, name: string, n: nat): set<string> {
    (if n >= 2 then {PayloadFile(key, name)} else {}) + (if n >= 3 then {key} else {})
    + (if n >= 4 then {ErrorFile(key)} else {})
  }

  lemma {:induction false} DeletionSteps(s: Store, key: string, name: string, n: nat)
    requires n <= 4
    ensures ApplyAll(s, Deletions(key, name)[..n]) ==
            Store(s.cache - Gone(key, name, n), if n >= 1 then s.bin - {name} else s.bin)
  {
    var es := Deletions(key, name);
    if n > 0 {
      DeletionSteps(s, key, name, n - 1);
      assert es[..n][..n - 1] == es[..n - 1] && es[..n][n - 1] == es[n - 1];
      assert n >= 2 ==> s.cache - Gone(key, name, n) == s.cache - Gone(key, name, n - 1) - {es[n - 1].name};
    }
  }

  predicate Indexed(env: Env, s: Store, d: Driver) { IsKey(Key(env, d)) && Key(env, d) in s.cache }

  /** The index holds a name that is accepted as it is; all that a Remove asks. */
  predicate NamedIndex(env: Env, s: Store, d: Driver) {
    Indexed(env, s, d) && SafeDriverName(s.cache[Key(env, d)]) == Some(s.cache[Key(env, d)])
  }

  lemma RemoveOf(env: Env, s: Store, d: Driver)
    requires NamedIndex(env, s, d)
    ensures Remove(env, s, d, 4) == Work(Deletions(Key(env, d), s.cache[Key(env, d)]), Ok(""))
  {
  }

  /** A complete Remove takes away the driver's files and its binary, and nothing else. */
  lemma RemoveIsFramed(env: Env, s: Store, d: Driver)
    requires NamedIndex(env, s, d)
    ensures var key := Key(env, d);
            ApplyAll(s, Remove(env, s, d, 4).edits)
            == Store(s.cache - {PayloadFile(key, s.cache[key]), key, ErrorFile(key)}, s.bin - {s.cache[key]})
  {
    var key := Key(env, d);
    RemoveOf(env, s, d);
    DeletionSteps(s, key, s.cache[key], 4);
    var es := Deletions(key, s.cache[key]);
    assert es[..4] == es;
  }

  /** Running all deletions after the first n of them is running them once. */
  lemma DeletionsAgain(s: Store, key: string, name: string, n: nat)
    requires n <= 4
    ensures var es := Deletions(key, name);
            ApplyAll(ApplyAll(s, es[..n]), es) == ApplyAll(s, es)
  {
    var es := Deletions(key, name);
    assert es[..4] == es;
    DeletionSteps(s, key, name, n);
    DeletionSteps(s, key, name, 4);
    DeletionSteps(ApplyAll(s, es[..n]), key, name, 4);
    assert s.cache - Gone(key, name, n) - Gone(key, name, 4) == s.cache - Gone(key, name, 4);
  }

  /** After the index is gone, only an error file can be left to delete. */
  lemma DeletionsLeft(s: Store, key: string, name: string, n: nat)
    requires 3 <= n <= 4 && ErrorFile(key) != key && ErrorFile(key) != PayloadFile(key, name)
    ensures var es := Deletions(key, name);
            ApplyAll(s, es[..n]) == ApplyAll(s, es) <==> n == 4 || ErrorFile(key) !in s.cache
  {
    var es := Deletions(key, name);
    assert es[..4] == es;
    DeletionSteps(s, key, name, n);
    DeletionSteps(s, key, name, 4);
    if n == 3 {
      var three, four := s.cache - Gone(key, name, 3), s.cache - Gone(key, name, 4);
      assert ErrorFile(key) in three <==> ErrorFile(key) in s.cache;
      assert ErrorFile(key) !in four;
      assert ErrorFile(key) !in s.cache ==> three == four;
    }
  }

  /** Stopped after any of its steps and run again, Remove ends where one run would have,
      unless it was stopped just before deleting a recorded error: that one stays. */
  lemma RemoveResumes(env: Env, s: Store, d: Driver, n: nat)
    requires NamedIndex(env, s, d) && n <= 4
    ensures var es := Remove(env, s, d, 4).edits;
            var t := ApplyAll(s, es[..n]);
            ApplyAll(t, Remove(env, t, d, 4).edits) == ApplyAll(s, es) <==>
            n != 3 || ErrorFile(Key(env, d)) !in s.cache
  {
    var key := Key(env, d);
    var name := s.cache[key];
    var t := ApplyAll(s, Deletions(key, name)[..n]);
    RemoveOf(env, s, d);
    DeletionSteps(s, key, name, n);
    AfterSteps(env, s, d, n, t);
    DeletionsAgain(s, key, name, n);
    FileNamesNeverClash(key, name, key, name);
    if n >= 3 {
      DeletionsLeft(s, key, name, n);
      assert ApplyAll(t, []) == t;
    }
  }

  /** What a second Remove finds after n deletions of the first. */
  lemma AfterSteps(env: Env, s: Store, d: Driver, n: nat, t: Store)
    requires NamedIndex(env, s, d) && n <= 4
    requires t.cache == s.cache - Gone(Key(env, d), s.cache[Key(env, d)], n)
    ensures Remove(env, t, d, 4).edits == if n <= 2 then Deletions(Key(env, d), s.cache[Key(env, d)]) else []
  {
    var key := Key(env, d);
    FileNamesNeverClash(key, s.cache[key], key, s.cache[key]);
  }

  lemma DeletionsKeepOthers(env: Env, s: Store, t: Store, key: string, name: string, n: nat, e: Driver)
    requires IsKey(key) && IsKey(Key(env, e)) && Key(env, e) != key && Sound(env, s, e)
    requires t.cache == s.cache - Gone(key, name, n)
    ensures Sound(env, t, e)
  {
    var other := Key(env, e);
    var its := if other in s.cache then s.cache[other] else "";
    FileNamesNeverClash(key, name, other, its);
    FileNamesNeverClash(other, its, key, name);
  }

  /** The points inside a Remove where the cache is inconsistent: exactly the one where
      the payload is gone and the index still there. */
  lemma RemoveInconsistency(env: Env, s: Store, known: set<Driver>, d: Driver, n: nat)
    requires Distinct(env, known) && d in known && Invariant(env, s, known) && Indexed(env, s, d) && n <= 4
    ensures Invariant(env, ApplyAll(s, Remove(env, s, d, 4).edits[..n]), known) <==> n != 2
  {
    var key := Key(env, d);
    var name := s.cache[key];
    RemoveOf(env, s, d);
    DeletionSteps(s, key, name, n);
    var t := ApplyAll(s, Deletions(key, name)[..n]);
    FileNamesNeverClash(key, name, key, name);
    if n == 2 {
      assert !Sound(env, t, d);
    } else {
      forall e | e in known ensures Sound(env, t, e) {
        if Key(env, e) == key {
          assert Sound(env, s, e);
        } else {
          DeletionsKeepOthers(env, s, t, key, name, n, e);
        }
      }
    }
  }
}
