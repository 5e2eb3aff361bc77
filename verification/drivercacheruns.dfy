/** The driver cache over whole runs of its operations, each of them cut short by a crash
    after any of its edits, or not. */
module DriverCacheRuns {
  import opened Options
  import opened Orders
  import opened DriverArchive
  import opened DriverCache
  import opened DriverCacheSafety

  /** An operation on driver d. */
  datatype Op =
    | StageOp(d: Driver, current: string, stage: StageCalls)
    | InstallOp(d: Driver, raw: string, install: InstallCalls)
    | ClearErrorOp(d: Driver)
    | RemoveOp(d: Driver)

  /** An operation that dies after `cut` edits, if it has as many. */
  datatype Event = Event(op: Op, cut: nat)

  function EditsOf(env: Env, s: Store, op: Op): seq<Edit>
    requires IsKey(Key(env, op.d))
  {
    match op
    case StageOp(d, current, c) => Stage(env, s, d, current, c).edits
    case InstallOp(d, raw, c) => Install(env, s, d, raw, c).edits
    case ClearErrorOp(d) => ClearError(env, d)
    case RemoveOp(d) => Remove(env, s, d, 4).edits
  }

  function AfterEvent(env: Env, s: Store, e: Event): Store
    requires IsKey(Key(env, e.op.d))
  {
    var es := EditsOf(env, s, e.op);
    ApplyAll(s, es[..Min(e.cut, |es|)])
  }

  ghost predicate AllKeys(env: Env, events: seq<Event>) {
    forall e :: e in events ==> IsKey(Key(env, e.op.d))
  }

  function RunFrom(env: Env, s: Store, events: seq<Event>): Store
    requires AllKeys(env, events)
  {
    if events == [] then s
    else
      assert events[|events| - 1] in events;
      AfterEvent(env, RunFrom(env, s, events[..|events| - 1]), events[|events| - 1])
  }

  predicate Removes(env: Env, e: Event, key: string) { e.op.RemoveOp? && Key(env, e.op.d) == key }

  // ----- which files an operation touches

  /** The edit leaves this file of the cache alone. */
  predicate Avoids(e: Edit, file: string) {
    match e
    case PutCache(n, _) => n != file
    case DropCache(n) => n != file
    case _ => true
  }

  predicate SameFile(s: Store, t: Store, file: string) {
    && (file in s.cache <==> file in t.cache)
    && (file in s.cache ==> s.cache[file] == t.cache[file])
  }

  /** All files of a key are the same: every file name begins with its key. */
  ghost predicate SameFiles(s: Store, t: Store, key: string) {
    forall file :: key <= file ==> SameFile(s, t, file)
  }

  lemma {:induction false} AvoidingKeeps(s: Store, es: seq<Edit>, file: string)
    requires forall e :: e in es ==> Avoids(e, file)
    ensures SameFile(s, ApplyAll(s, es), file)
  {
    if es != [] {
      var n := |es| - 1;
      assert es[n] in es;
      AvoidingKeeps(s, es[..n], file);
    }
  }

  lemma PrefixesOfOneFile(k1: string, k2: string, file: string)
    requires IsKey(k1) && IsKey(k2) && k1 <= file && k2 <= file
    ensures k1 == k2
  {
    assert k1 == file[..64] == k2;
  }

  /** All files of a key are the same, except perhaps its error file. */
  ghost predicate SameButError(s: Store, t: Store, key: string) {
    forall file :: key <= file && file != ErrorFile(key) ==> SameFile(s, t, file)
  }

  lemma OwnFiles(key: string, name: string)
    ensures key <= key && key <= PayloadFile(key, name) && key <= ErrorFile(key)
    ensures key != ErrorFile(key) && PayloadFile(key, name) != ErrorFile(key)
  {
    assert PayloadFile(key, name)[|key|] == '-' && ErrorFile(key)[|key|] == '.';
  }

  /** A Stage past the error record edits only the index and payloads of its key. */
  lemma StageInnerAvoids(env: Env, s: Store, d: Driver, current: string, c: StageCalls, file: string)
    requires Key(env, d) != file && forall name :: PayloadFile(Key(env, d), name) != file
    ensures forall e :: e in StageInner(env, s, d, current, c).edits ==> Avoids(e, file)
  {
    hide Payload, IsInstalled, HashMatches, Key, PayloadFile;
    if c.download.Some? {
      CopyBinaryAvoids(env, Key(env, d), d, c.download.value, c, file);
      hide DriverCache.CopyBinary;
    }
  }

  lemma CopyBinaryAvoids(env: Env, key: string, d: Driver, bytes: Bytes, c: StageCalls, file: string)
    requires key != file && forall name :: PayloadFile(key, name) != file
    ensures forall e :: e in CopyBinary(env, key, d, bytes, c).edits ==> Avoids(e, file)
  {
    var payload := Payload(env, d.url, bytes);
    if payload.Some? {
      assert PayloadFile(key, payload.value.0) != file;
    }
    hide Payload, PayloadFile;
  }

  /** An operation edits only cache files of its own driver's key. */
  lemma OpKeepsToItsKey(env: Env, s: Store, op: Op, file: string)
    requires IsKey(Key(env, op.d)) && !(Key(env, op.d) <= file)
    ensures forall e :: e in EditsOf(env, s, op) ==> Avoids(e, file)
  {
    var key := Key(env, op.d);
    forall name ensures PayloadFile(key, name) != file && key != file && ErrorFile(key) != file {
      OwnFiles(key, name);
    }
    if op.StageOp? {
      StageInnerAvoids(env, s, op.d, op.current, op.stage, file);
    } else if op.InstallOp? {
      InstallIsBinOnly(env, s, op.d, op.raw, op.install);
    }
    hide IsKey, IsInstalled, Install, StageInner, PayloadFile, ErrorFile, Key;
  }

  lemma OthersAreUntouched(env: Env, s: Store, e: Event, key: string)
    requires IsKey(key) && IsKey(Key(env, e.op.d)) && Key(env, e.op.d) != key
    ensures SameFiles(s, AfterEvent(env, s, e), key)
  {
    hide EditsOf, IsKey, Key;
    var es := EditsOf(env, s, e.op);
    forall file | key <= file ensures SameFile(s, AfterEvent(env, s, e), file) {
      if Key(env, e.op.d) <= file {
        PrefixesOfOneFile(key, Key(env, e.op.d), file);
      }
      OpKeepsToItsKey(env, s, e.op, file);
      AvoidingKeeps(s, es[..Min(e.cut, |es|)], file);
    }
  }

  // ----- an index never names a wrong payload

  /** Sound, but for a payload that may be missing. */
  ghost predicate Truthful(env: Env, s: Store, d: Driver) {
    var key := Key(env, d);
    key in s.cache ==>
      var name := s.cache[key];
      && SafeDriverName(name) == Some(name)
      && (PayloadFile(key, name) in s.cache ==> Genuine(env, d, name, s.cache[PayloadFile(key, name)]))
  }

  /** An index without its payload. */
  predicate Hollow(s: Store, key: string) {
    key in s.cache && PayloadFile(key, s.cache[key]) !in s.cache
  }

  lemma SoundMeans(env: Env, s: Store, d: Driver)
    ensures Sound(env, s, d) <==> Truthful(env, s, d) && !Hollow(s, Key(env, d))
  {
  }

  lemma SameFilesSameState(env: Env, s: Store, t: Store, d: Driver)
    requires SameButError(s, t, Key(env, d))
    ensures Truthful(env, s, d) <==> Truthful(env, t, d)
    ensures Hollow(s, Key(env, d)) <==> Hollow(t, Key(env, d))
    ensures SameFile(s, t, Key(env, d)) && (Key(env, d) in s.cache <==> Key(env, d) in t.cache)
  {
    hide SafeDriverName, Genuine;
    var key := Key(env, d);
    OwnFiles(key, "");
    assert SameFile(s, t, key);
    if key in s.cache {
      OwnFiles(key, s.cache[key]);
      assert SameFile(s, t, PayloadFile(key, s.cache[key]));
    }
  }

  lemma SameTransitive(s: Store, t: Store, u: Store, key: string)
    requires SameButError(s, t, key) && SameButError(t, u, key)
    ensures SameButError(s, u, key)
  {
    forall file | key <= file && file != ErrorFile(key) ensures SameFile(s, u, file) {
      assert SameFile(s, t, file) && SameFile(t, u, file);
    }
  }

  lemma IndexedLookup(env: Env, s: Store, d: Driver)
    requires IsKey(Key(env, d)) && Truthful(env, s, d) && Key(env, d) in s.cache
    ensures IsInstalled(s.cache, Key(env, d)) == Installed(s.cache[Key(env, d)])
  {
  }

  /** What a Stage does while its driver is indexed. */
  lemma StageWhileIndexed(env: Env, s: Store, d: Driver, current: string, c: StageCalls)
    requires IsKey(Key(env, d)) && !d.builtin
    requires IsInstalled(s.cache, Key(env, d)).Installed?
    ensures var file, w := ErrorFile(Key(env, d)), Stage(env, s, d, current, c);
            && (w.result.Ok? <==> ReadsWork(c) && file !in s.cache)
            && (w.result.Ok? ==> w == Work([], Ok(IsInstalled(s.cache, Key(env, d)).name)))
            && w.edits == if !c.errorRead then []
                          else if file in s.cache then (if c.errorDropped then [DropCache(file)] else [])
                          else if !ReadsWork(c) && c.errorWritten then [PutCache(file, c.message)]
                          else []
  {
    hide IsInstalled, SafeErrorMessage;
  }

  /** While a driver is indexed, an operation on it that is no removal edits nothing in
      the cache but its error file. */
  lemma EditsWhileIndexed(env: Env, s: Store, op: Op, d: Driver, file: string)
    requires IsKey(Key(env, d)) && Key(env, op.d) == Key(env, d) && !op.RemoveOp?
    requires Truthful(env, s, d) && Key(env, d) in s.cache && file != ErrorFile(Key(env, d))
    ensures forall e :: e in EditsOf(env, s, op) ==> Avoids(e, file)
  {
    IndexedLookup(env, s, d);
    match op
    case StageOp(x, current, c) =>
      if !x.builtin {
        StageWhileIndexed(env, s, x, current, c);
      }
      hide IsInstalled, CopyBinary, SafeErrorMessage;
    case InstallOp(x, raw, c) =>
      InstallIsBinOnly(env, s, x, raw, c);
      hide Install;
    case ClearErrorOp(_) =>
  }

  /** While a driver is indexed, no operation but its removal changes any of its files but
      the error file. */
  lemma OnlyRemoveChangesIndexed(env: Env, s: Store, e: Event, d: Driver)
    requires IsKey(Key(env, d)) && IsKey(Key(env, e.op.d))
    requires Truthful(env, s, d) && Key(env, d) in s.cache && !Removes(env, e, Key(env, d))
    ensures SameButError(s, AfterEvent(env, s, e), Key(env, d))
  {
    var key := Key(env, d);
    if Key(env, e.op.d) != key {
      OthersAreUntouched(env, s, e, key);
    } else {
      forall file | key <= file && file != ErrorFile(key) ensures SameFile(s, AfterEvent(env, s, e), file) {
        EditsWhileIndexed(env, s, e.op, d, file);
        hide EditsOf, Key, Truthful;
        var es := EditsOf(env, s, e.op);
        AvoidingKeeps(s, es[..Min(e.cut, |es|)], file);
      }
    }
  }

  // ----- staged once, staged until removed

  ghost predicate NoRemove(env: Env, events: seq<Event>, key: string) {
    forall e :: e in events ==> !Removes(env, e, key)
  }

  lemma {:induction false} IndexedUntilRemoved(env: Env, s: Store, events: seq<Event>, d: Driver)
    requires IsKey(Key(env, d)) && AllKeys(env, events) && NoRemove(env, events, Key(env, d))
    requires Truthful(env, s, d) && Key(env, d) in s.cache
    ensures SameButError(s, RunFrom(env, s, events), Key(env, d))
  {
    if events != [] {
      hide Truthful, AfterEvent, IsKey, Key, SameButError, SameFile;
      var n := |events| - 1;
      assert events[n] in events;
      IndexedUntilRemoved(env, s, events[..n], d);
      var t := RunFrom(env, s, events[..n]);
      SameFilesSameState(env, s, t, d);
      OnlyRemoveChangesIndexed(env, t, events[n], d);
      SameTransitive(s, t, AfterEvent(env, t, events[n]), Key(env, d));
    }
  }

  /** Once Stage has succeeded, then whatever is staged, installed, cleared and removed
      and wherever the process dies, until this driver is removed: its index and payload
      are untouched and genuine; and a Stage returns the same name and edits nothing,
      exactly if its reads work and no error has been recorded. */
  lemma StagedUntilRemoved(env: Env, s: Store, known: set<Driver>, d: Driver, current: string, c: StageCalls,
                           events: seq<Event>)
    requires Distinct(env, known) && d in known && Invariant(env, s, known) && !d.builtin
    requires Stage(env, s, d, current, c).result.Ok?
    requires AllKeys(env, events) && NoRemove(env, events, Key(env, d))
    ensures var staged := Stage(env, s, d, current, c);
            var t := ApplyAll(s, staged.edits);
            var u := RunFrom(env, t, events);
            && SameButError(t, u, Key(env, d)) && Sound(env, u, d) && Publishes(env, u, d, staged.result.name)
            && forall other, calls ::
                 Stage(env, u, d, other, calls) == Work([], Ok(staged.result.name)) <==>
                 ReadsWork(calls) && ErrorFile(Key(env, d)) !in u.cache
  {
    var staged := Stage(env, s, d, current, c);
    var t := ApplyAll(s, staged.edits);
    StageThroughout(env, s, known, d, current, c);
    assert staged.edits[..|staged.edits|] == staged.edits;
    assert Sound(env, t, d);
    IndexedUntilRemoved(env, t, events, d);
    var u := RunFrom(env, t, events);
    SameFilesSameState(env, t, u, d);
    forall other, calls
      ensures Stage(env, u, d, other, calls) == Work([], Ok(staged.result.name)) <==>
              ReadsWork(calls) && ErrorFile(Key(env, d)) !in u.cache
    {
      StageIsStable(env, u, d, staged.result.name, other, calls);
    }
  }

  /** Every Stage of the key can read, or cannot record that it could not. */
  ghost predicate NoReadFails(env: Env, events: seq<Event>, key: string) {
    forall e :: e in events && e.op.StageOp? && Key(env, e.op.d) == key ==>
      ReadsWork(e.op.stage) || !e.op.stage.errorWritten
  }

  /** If besides no read of it fails, no error appears, and every Stage that can read
      returns the name and edits nothing. */
  lemma StagedQuietly(env: Env, s: Store, known: set<Driver>, d: Driver, current: string, c: StageCalls,
                      events: seq<Event>)
    requires Distinct(env, known) && d in known && Invariant(env, s, known) && !d.builtin
    requires Stage(env, s, d, current, c).result.Ok?
    requires AllKeys(env, events) && NoRemove(env, events, Key(env, d)) && NoReadFails(env, events, Key(env, d))
    ensures var staged := Stage(env, s, d, current, c);
            var u := RunFrom(env, ApplyAll(s, staged.edits), events);
            forall other, calls :: ReadsWork(calls) ==>
              Stage(env, u, d, other, calls) == Work([], Ok(staged.result.name))
  {
    var staged := Stage(env, s, d, current, c);
    var t := ApplyAll(s, staged.edits);
    StagedUntilRemoved(env, s, known, d, current, c, []);
    StagedUntilRemoved(env, s, known, d, current, c, events);
    SuccessLeavesNoError(env, s, d, current, c);
    NoErrorAppears(env, t, events, d);
  }

  lemma SuccessLeavesNoError(env: Env, s: Store, d: Driver, current: string, c: StageCalls)
    requires IsKey(Key(env, d)) && Stage(env, s, d, current, c).result.Ok?
    ensures ErrorFile(Key(env, d)) !in ApplyAll(s, Stage(env, s, d, current, c).edits).cache
  {
    StageInnerAvoidsError(env, s, d, current, c);
    AvoidingKeeps(s, StageInner(env, s, d, current, c).edits, ErrorFile(Key(env, d)));
  }

  lemma {:induction false} NoErrorAppears(env: Env, s: Store, events: seq<Event>, d: Driver)
    requires IsKey(Key(env, d)) && AllKeys(env, events)
    requires NoRemove(env, events, Key(env, d)) && NoReadFails(env, events, Key(env, d))
    requires Truthful(env, s, d) && Key(env, d) in s.cache && ErrorFile(Key(env, d)) !in s.cache
    ensures ErrorFile(Key(env, d)) !in RunFrom(env, s, events).cache
  {
    if events != [] {
      var n := |events| - 1;
      assert events[n] in events && forall e :: e in events[..n] ==> e in events;
      NoErrorAppears(env, s, events[..n], d);
      IndexedUntilRemoved(env, s, events[..n], d);
      var t := RunFrom(env, s, events[..n]);
      SameFilesSameState(env, s, t, d);
      if ErrorFile(Key(env, d)) in AfterEvent(env, t, events[n]).cache {
        RecordAfterEvent(env, t, events[n], Key(env, d));
        RecordsWhileIndexed(env, t, events[n], d);
        assert false;
      }
    }
  }

  // ----- errors

  /** The event returns a recorded error. */
  predicate Replays(env: Env, s: Store, e: Event, key: string) {
    && e.op.StageOp? && Key(env, e.op.d) == key && ErrorFile(key) in s.cache
    && e.op.stage.errorRead && (e.op.stage.errorDropped ==> e.cut > 0)
  }

  /** It also clears the record. */
  predicate Clears(env: Env, s: Store, e: Event, key: string) {
    Replays(env, s, e, key) && e.op.stage.errorDropped
  }

  function StageResult(env: Env, s: Store, e: Event): Result
    requires e.op.StageOp?
  {
    Stage(env, s, e.op.d, e.op.current, e.op.stage).result
  }

  /** The event is a Stage that fails by itself and gets to record its error. */
  predicate Records(env: Env, s: Store, e: Event, key: string) {
    && e.op.StageOp? && Key(env, e.op.d) == key && ErrorFile(key) !in s.cache
    && StageResult(env, s, e).Error? && e.op.stage.errorRead && e.op.stage.errorWritten
    && e.cut >= |Stage(env, s, e.op.d, e.op.current, e.op.stage).edits|
  }

  /** An indexed driver's Stage fails, and records it, only because a read fails. */
  lemma RecordsWhileIndexed(env: Env, s: Store, e: Event, d: Driver)
    requires IsKey(Key(env, d)) && Truthful(env, s, d) && Key(env, d) in s.cache
    requires Records(env, s, e, Key(env, d))
    ensures !ReadsWork(e.op.stage) && !e.op.d.builtin
  {
    IndexedLookup(env, s, d);
    if !e.op.d.builtin {
      StageWhileIndexed(env, s, e.op.d, e.op.current, e.op.stage);
    }
    hide IsInstalled;
  }

  lemma StageInnerAvoidsError(env: Env, s: Store, d: Driver, current: string, c: StageCalls)
    requires IsKey(Key(env, d))
    ensures forall e :: e in StageInner(env, s, d, current, c).edits ==> Avoids(e, ErrorFile(Key(env, d)))
  {
    var key := Key(env, d);
    forall name ensures PayloadFile(key, name) != ErrorFile(key) && key != ErrorFile(key) {
      OwnFiles(key, name);
    }
    StageInnerAvoids(env, s, d, current, c, ErrorFile(key));
  }

  lemma NewRecord(env: Env, s: Store, e: Event)
    requires IsKey(Key(env, e.op.d)) && e.op.StageOp? && e.op.stage.errorRead
    requires ErrorFile(Key(env, e.op.d)) !in s.cache && ErrorFile(Key(env, e.op.d)) in AfterEvent(env, s, e).cache
    ensures var file := ErrorFile(Key(env, e.op.d));
            Records(env, s, e, Key(env, e.op.d))
            && AfterEvent(env, s, e).cache[file] == StageResult(env, s, e).message
  {
    var d, c := e.op.d, e.op.stage;
    var file, w := ErrorFile(Key(env, d)), Stage(env, s, d, e.op.current, c);
    var inner := StageInner(env, s, d, e.op.current, c);
    StageInnerAvoidsError(env, s, d, e.op.current, c);
    hide StageInner, Avoids, IsKey;
    var n := Min(e.cut, |w.edits|);
    if n <= |inner.edits| {
      assert w.edits[..n] == inner.edits[..n];
      AvoidingKeeps(s, inner.edits[..n], file);
    }
    assert n > |inner.edits|;
    assert w.edits[..n] == inner.edits + [PutCache(file, inner.result.message)];
  }

  /** A record that is there after a Stage of its key was there before and has not been
      cleared, or is the Stage's own. */
  lemma RecordAfterStage(env: Env, s: Store, e: Event)
    requires IsKey(Key(env, e.op.d)) && e.op.StageOp?
    requires ErrorFile(Key(env, e.op.d)) in AfterEvent(env, s, e).cache
    ensures var key, t := Key(env, e.op.d), AfterEvent(env, s, e);
            if ErrorFile(key) in s.cache then !Clears(env, s, e, key) && SameFile(s, t, ErrorFile(key))
            else Records(env, s, e, key) && t.cache[ErrorFile(key)] == StageResult(env, s, e).message
  {
    var d, c := e.op.d, e.op.stage;
    var file := ErrorFile(Key(env, d));
    var w := Stage(env, s, d, e.op.current, c);
    if !c.errorRead || file in s.cache {
      assert w.edits == [] || w.edits == [DropCache(file)];
      assert [DropCache(file)][..0] == [] && [DropCache(file)][..1] == [DropCache(file)];
    } else {
      NewRecord(env, s, e);
    }
  }

  lemma RecordAfterEvent(env: Env, s: Store, e: Event, key: string)
    requires IsKey(key) && IsKey(Key(env, e.op.d)) && ErrorFile(key) in AfterEvent(env, s, e).cache
    ensures var t := AfterEvent(env, s, e);
            if ErrorFile(key) in s.cache then !Clears(env, s, e, key) && SameFile(s, t, ErrorFile(key))
            else Records(env, s, e, key) && t.cache[ErrorFile(key)] == StageResult(env, s, e).message
  {
    if Key(env, e.op.d) != key {
      OwnFiles(key, "");
      OthersAreUntouched(env, s, e, key);
      assert SameFile(s, AfterEvent(env, s, e), ErrorFile(key));
    } else if e.op.StageOp? {
      RecordAfterStage(env, s, e);
    } else {
      OnlyStageWrites(env, s, e.op);
      hide EditsOf;
      var es := EditsOf(env, s, e.op);
      NothingWritten(s, es[..Min(e.cut, |es|)], ErrorFile(key));
    }
  }

  lemma OnlyStageWrites(env: Env, s: Store, op: Op)
    requires IsKey(Key(env, op.d)) && !op.StageOp?
    ensures forall e :: e in EditsOf(env, s, op) ==> !e.PutCache?
  {
    hide IsKey, IsInstalled, SafeDriverName;
  }

  /** A file that no edit writes, and that is there at the end, has been there unchanged. */
  lemma {:induction false} NothingWritten(s: Store, es: seq<Edit>, file: string)
    requires forall e :: e in es ==> !e.PutCache?
    requires file in ApplyAll(s, es).cache
    ensures SameFile(s, ApplyAll(s, es), file)
  {
    if es != [] {
      var n := |es| - 1;
      assert es[n] in es;
      NothingWritten(s, es[..n], file);
    }
  }

  // ----- whole runs from an empty cache

  /** The state before the n-th event of a run. */
  function Before(env: Env, events: seq<Event>, n: nat): Store
    requires AllKeys(env, events) && n <= |events|
  {
    assert forall e :: e in events[..n] ==> e in events;
    RunFrom(env, EMPTY_STORE, events[..n])
  }

  lemma BeforeNext(env: Env, events: seq<Event>, n: nat)
    requires AllKeys(env, events) && n < |events|
    ensures events[n] in events
    ensures Before(env, events, n + 1) == AfterEvent(env, Before(env, events, n), events[n])
  {
    assert events[..n + 1][..n] == events[..n] && events[..n + 1][n] == events[n];
  }

  /** The k-th event recorded this message, and it has not been cleared up to the n-th. */
  predicate RecordedAt(env: Env, events: seq<Event>, key: string, message: string, k: nat, n: nat)
    requires AllKeys(env, events) && n <= |events|
  {
    && k < n && Records(env, Before(env, events, k), events[k], key)
    && StageResult(env, Before(env, events, k), events[k]).message == message
    && forall m :: k < m < n ==> !Clears(env, Before(env, events, m), events[m], key)
  }

  lemma RecordedNext(env: Env, events: seq<Event>, key: string, message: string, k: nat, n: nat)
    requires AllKeys(env, events) && n < |events| && RecordedAt(env, events, key, message, k, n)
    requires !Clears(env, Before(env, events, n), events[n], key)
    ensures RecordedAt(env, events, key, message, k, n + 1)
  {
    hide AllKeys, Before, Clears, Records, StageResult;
  }

  lemma {:induction false} RecordOrigin(env: Env, events: seq<Event>, key: string, n: nat) returns (k: nat)
    requires AllKeys(env, events) && IsKey(key) && n <= |events|
    requires ErrorFile(key) in Before(env, events, n).cache
    ensures RecordedAt(env, events, key, Before(env, events, n).cache[ErrorFile(key)], k, n)
  {
    assert Before(env, events, 0) == EMPTY_STORE;
    BeforeNext(env, events, n - 1);
    var s := Before(env, events, n - 1);
    RecordAfterEvent(env, s, events[n - 1], key);
    if ErrorFile(key) in s.cache {
      hide AllKeys, AfterEvent, Records, Clears, StageResult, Before, RecordedAt, IsKey, Key;
      k := RecordOrigin(env, events, key, n - 1);
      RecordedNext(env, events, key, s.cache[ErrorFile(key)], k, n - 1);
    } else {
      hide AllKeys, AfterEvent, Records, Clears, StageResult, Before, IsKey, Key;
      k := n - 1;
    }
  }

  /** Every replay has its record: an earlier Stage of the same key that failed with the
      error replayed, and no Stage in between has cleared it. */
  lemma ReplayHasItsRecord(env: Env, events: seq<Event>, key: string, j: nat)
    requires AllKeys(env, events) && IsKey(key) && j < |events|
    requires Replays(env, Before(env, events, j), events[j], key)
    ensures exists k: nat, message ::
              && RecordedAt(env, events, key, message, k, j)
              && StageResult(env, Before(env, events, j), events[j]) == Error(SafeErrorMessage(message))
  {
    var k := RecordOrigin(env, events, key, j);
    var message := Before(env, events, j).cache[ErrorFile(key)];
    assert RecordedAt(env, events, key, message, k, j);
  }

  /** Between a replay that clears its record and another one for the same key lies a
      Stage of that key that wrote a record: where the removals of error files work, a
      recorded error is replayed at most once. */
  lemma RecordBetweenReplays(env: Env, events: seq<Event>, key: string, i: nat, j: nat)
    requires AllKeys(env, events) && IsKey(key) && i < j < |events|
    requires Clears(env, Before(env, events, i), events[i], key)
    requires Replays(env, Before(env, events, j), events[j], key)
    ensures exists k :: i < k < j && Records(env, Before(env, events, k), events[k], key)
  {
    hide Before, StageResult;
    var k := RecordOrigin(env, events, key, j);
    assert k != i;
  }

  // ----- when the invariant holds

  /** An index without payload stays as it is until a removal takes the index away. */
  lemma HollowChanges(env: Env, s: Store, e: Event, d: Driver)
    requires IsKey(Key(env, d)) && IsKey(Key(env, e.op.d)) && Distinct(env, {d, e.op.d}) && Truthful(env, s, d)
    ensures var key, t := Key(env, d), AfterEvent(env, s, e);
            && Truthful(env, t, d)
            && (Hollow(t, key) <==>
                  if Removes(env, e, key) then key in s.cache && (e.cut == 2 || (e.cut < 2 && Hollow(s, key)))
                  else Hollow(s, key))
  {
    var key, t := Key(env, d), AfterEvent(env, s, e);
    if Removes(env, e, key) {
      RemoveChanges(env, s, e, d);
    } else if Key(env, e.op.d) != key {
      OthersAreUntouched(env, s, e, key);
      SameFilesSameState(env, s, t, d);
    } else if key in s.cache {
      OnlyRemoveChangesIndexed(env, s, e, d);
      SameFilesSameState(env, s, t, d);
    } else {
      UnindexedStaysSound(env, s, e, d);
    }
  }

  lemma RemoveChanges(env: Env, s: Store, e: Event, d: Driver)
    requires IsKey(Key(env, d)) && Removes(env, e, Key(env, d)) && Truthful(env, s, d)
    ensures var key, t := Key(env, d), AfterEvent(env, s, e);
            && Truthful(env, t, d)
            && (Hollow(t, key) <==> key in s.cache && (e.cut == 2 || (e.cut < 2 && Hollow(s, key))))
  {
    var key := Key(env, d);
    if key in s.cache {
      IndexedLookup(env, s, d);
      var es := EditsOf(env, s, e.op);
      assert es == Deletions(key, s.cache[key]);
      DeletionsLeave(env, s, d, Min(e.cut, 4));
    } else {
      NothingToRemove(env, s, e, key);
    }
  }

  lemma NothingToRemove(env: Env, s: Store, e: Event, key: string)
    requires IsKey(key) && Removes(env, e, key) && key !in s.cache
    ensures AfterEvent(env, s, e) == s
  {
  }

  lemma DeletionsLeave(env: Env, s: Store, d: Driver, n: nat)
    requires IsKey(Key(env, d)) && Truthful(env, s, d) && Key(env, d) in s.cache && n <= 4
    ensures var key, t := Key(env, d), ApplyAll(s, Deletions(Key(env, d), s.cache[Key(env, d)])[..n]);
            Truthful(env, t, d) && (Hollow(t, key) <==> n == 2 || (n < 2 && Hollow(s, key)))
  {
    hide SafeDriverName, Genuine, IsKey, Deletions, PayloadFile, ErrorFile;
    var key := Key(env, d);
    DeletionSteps(s, key, s.cache[key], n);
    FileNamesNeverClash(key, s.cache[key], key, s.cache[key]);
  }

  lemma ClearErrorThroughout(env: Env, s: Store, known: set<Driver>, d: Driver)
    requires Distinct(env, known) && d in known && Invariant(env, s, known)
    ensures Throughout(env, s, ClearError(env, d), known)
  {
  }

  /** Every operation keeps the invariant, all but Remove after every edit. */
  lemma OpThroughout(env: Env, s: Store, known: set<Driver>, op: Op)
    requires Distinct(env, known) && op.d in known && IsKey(Key(env, op.d)) && Invariant(env, s, known)
    ensures !op.RemoveOp? ==> Throughout(env, s, EditsOf(env, s, op), known)
    ensures op.RemoveOp? ==> Invariant(env, ApplyAll(s, EditsOf(env, s, op)), known)
  {
    match op
    case StageOp(d, current, c) => StageThroughout(env, s, known, d, current, c);
    case InstallOp(d, raw, c) => InstallThroughout(env, s, known, d, raw, c);
    case ClearErrorOp(d) => ClearErrorThroughout(env, s, known, d);
    case RemoveOp(d) =>
      SoundLookup(env, s, d);
      if Indexed(env, s, d) {
        RemoveOf(env, s, d);
        RemoveInconsistency(env, s, known, d, 4);
        assert Deletions(Key(env, d), s.cache[Key(env, d)])[..4] == Deletions(Key(env, d), s.cache[Key(env, d)]);
      }
  }

  lemma UnindexedStaysSound(env: Env, s: Store, e: Event, d: Driver)
    requires IsKey(Key(env, d)) && Distinct(env, {d, e.op.d}) && Key(env, e.op.d) == Key(env, d)
    requires !e.op.RemoveOp? && Key(env, d) !in s.cache
    ensures Sound(env, AfterEvent(env, s, e), d)
  {
    var known := {d, e.op.d};
    assert Invariant(env, s, known);
    OpThroughout(env, s, known, e.op);
    hide EditsOf;
    var es := EditsOf(env, s, e.op);
    assert Invariant(env, ApplyAll(s, es[..Min(e.cut, |es|)]), known);
  }

  /** The i-th event is a removal that died between deleting the payload and deleting the
      index, and no later one has taken the index away. */
  ghost predicate LeftHollow(env: Env, events: seq<Event>, key: string, i: nat)
    requires AllKeys(env, events)
  {
    && i < |events| && Removes(env, events[i], key) && events[i].cut == 2 && key in Before(env, events, i).cache
    && forall j :: i < j < |events| && Removes(env, events[j], key) ==> events[j].cut <= 2
  }

  ghost predicate SomeLeftHollow(env: Env, events: seq<Event>, key: string)
    requires AllKeys(env, events)
  {
    exists i: nat :: LeftHollow(env, events, key, i)
  }

  lemma LeftHollowSnoc(env: Env, events: seq<Event>, key: string)
    requires AllKeys(env, events) && events != []
    ensures var n := |events| - 1;
            SomeLeftHollow(env, events, key) <==>
              if Removes(env, events[n], key)
              then (events[n].cut == 2 && key in Before(env, events, n).cache)
                   || (events[n].cut <= 2 && SomeLeftHollow(env, events[..n], key))
              else SomeLeftHollow(env, events[..n], key)
  {
    hide RunFrom, Removes;
    var n := |events| - 1;
    var us, e := events[..n], events[n];
    assert forall i :: 0 <= i <= n ==> us[..i] == events[..i];
    assert forall i: nat :: i < n ==>
      (LeftHollow(env, events, key, i) <==> LeftHollow(env, us, key, i) && (Removes(env, e, key) ==> e.cut <= 2));
    assert LeftHollow(env, events, key, n) <==>
           Removes(env, e, key) && e.cut == 2 && key in Before(env, events, n).cache;
    if i: nat :| LeftHollow(env, us, key, i) {
      assert (Removes(env, e, key) ==> e.cut <= 2) ==> LeftHollow(env, events, key, i);
    }
  }

  /** After any run, whatever was cut short anywhere, a removal included: an index names a
      valid driver and never a wrong payload; and its payload is missing exactly if a
      removal died at the one bad point and none has taken the index away since. */
  lemma {:induction false} RunIsTruthful(env: Env, events: seq<Event>, known: set<Driver>, d: Driver)
    requires Distinct(env, known) && d in known && AllKeys(env, events)
    requires forall e :: e in events ==> e.op.d in known
    ensures var s := RunFrom(env, EMPTY_STORE, events);
            Truthful(env, s, d) && (Hollow(s, Key(env, d)) <==> SomeLeftHollow(env, events, Key(env, d)))
  {
    if events == [] {
      assert !SomeLeftHollow(env, events, Key(env, d));
    } else {
      var n := |events| - 1;
      assert events[n] in events;
      assert forall e :: e in events[..n] ==> e in events;
      RunIsTruthful(env, events[..n], known, d);
      LeftHollowSnoc(env, events, Key(env, d));
      var s := RunFrom(env, EMPTY_STORE, events[..n]);
      assert events[n].op.d in known && {d, events[n].op.d} <= known;
      assert Distinct(env, {d, events[n].op.d});
      assert Hollow(s, Key(env, d)) ==> Key(env, d) in s.cache;
      hide Truthful, Hollow, AfterEvent, SomeLeftHollow, Distinct, Removes;
      HollowChanges(env, s, events[n], d);
    }
  }

  /** So the cache invariant holds after a run exactly if no driver in use was left so. */
  lemma RunInvariantExactly(env: Env, events: seq<Event>, known: set<Driver>)
    requires Distinct(env, known) && AllKeys(env, events)
    requires forall e :: e in events ==> e.op.d in known
    ensures Invariant(env, RunFrom(env, EMPTY_STORE, events), known) <==>
            forall d :: d in known ==> !SomeLeftHollow(env, events, Key(env, d))
  {
    var s := RunFrom(env, EMPTY_STORE, events);
    forall d | d in known ensures Sound(env, s, d) <==> !SomeLeftHollow(env, events, Key(env, d)) {
      RunIsTruthful(env, events, known, d);
      SoundMeans(env, s, d);
    }
  }

  /** In particular after every run whose removals are completed, or die at another point,
      crashes anywhere in stages, installs and clearings included. */
  lemma RunKeepsInvariant(env: Env, events: seq<Event>, known: set<Driver>)
    requires Distinct(env, known) && AllKeys(env, events)
    requires forall e :: e in events ==> e.op.d in known
    requires forall e :: e in events && e.op.RemoveOp? ==> e.cut != 2
    ensures Invariant(env, RunFrom(env, EMPTY_STORE, events), known)
  {
    RunInvariantExactly(env, events, known);
    forall d, i: nat | d in known ensures !LeftHollow(env, events, Key(env, d), i) {
      assert i < |events| ==> events[i] in events;
    }
  }

  // ----- a removal that died at the bad point

  /** The event takes the index of the key away, if there is one. */
  predicate Unindexes(env: Env, e: Event, key: string) { Removes(env, e, key) && e.cut >= 3 }

  lemma HollowStays(env: Env, s: Store, e: Event, d: Driver)
    requires IsKey(Key(env, d)) && IsKey(Key(env, e.op.d))
    requires Truthful(env, s, d) && Hollow(s, Key(env, d)) && !Unindexes(env, e, Key(env, d))
    ensures SameButError(s, AfterEvent(env, s, e), Key(env, d))
  {
    var key := Key(env, d);
    if Removes(env, e, key) {
      IndexedLookup(env, s, d);
      DeletionSteps(s, key, s.cache[key], e.cut);
    } else {
      OnlyRemoveChangesIndexed(env, s, e, d);
    }
  }

  lemma {:induction false} HollowUntilRemoved(env: Env, s: Store, events: seq<Event>, d: Driver)
    requires IsKey(Key(env, d)) && AllKeys(env, events) && Truthful(env, s, d) && Hollow(s, Key(env, d))
    requires forall e :: e in events ==> !Unindexes(env, e, Key(env, d))
    ensures SameButError(s, RunFrom(env, s, events), Key(env, d))
  {
    if events != [] {
      hide Truthful, AfterEvent, IsKey, Key, SameButError, SameFile, Hollow, Unindexes;
      var n := |events| - 1;
      assert events[n] in events;
      HollowUntilRemoved(env, s, events[..n], d);
      var t := RunFrom(env, s, events[..n]);
      SameFilesSameState(env, s, t, d);
      HollowStays(env, t, events[n], d);
      SameTransitive(s, t, AfterEvent(env, t, events[n]), Key(env, d));
    }
  }

  lemma HollowBreaksInstall(env: Env, s: Store, d: Driver, current: string, c: StageCalls, i: InstallCalls)
    requires IsKey(Key(env, d)) && Truthful(env, s, d) && Hollow(s, Key(env, d)) && !d.builtin
    ensures var w := Stage(env, s, d, current, c);
            && (w.result.Ok? <==> ReadsWork(c) && ErrorFile(Key(env, d)) !in s.cache)
            && (w.result.Ok? ==> w == Work([], Ok(s.cache[Key(env, d)])))
    ensures Install(env, s, d, s.cache[Key(env, d)], i).result.Error?
  {
    IndexedLookup(env, s, d);
    StageWhileIndexed(env, s, d, current, c);
  }

  /** What two deletions leave behind. */
  lemma HalfRemoved(env: Env, s: Store, d: Driver)
    requires Indexed(env, s, d) && Sound(env, s, d)
    ensures var key, t := Key(env, d), ApplyAll(s, Remove(env, s, d, 4).edits[..2]);
            Truthful(env, t, d) && Hollow(t, key) && t.cache[key] == s.cache[key]
  {
    var key := Key(env, d);
    RemoveOf(env, s, d);
    DeletionSteps(s, key, s.cache[key], 2);
    FileNamesNeverClash(key, s.cache[key], key, s.cache[key]);
  }

  /** A removal that dies after its second deletion: from there on, until a removal takes
      the index away, and whatever is staged, installed and cleared meanwhile, Install
      fails; and yet Stage reports success without an edit, exactly if its reads work and
      no error has been recorded. */
  lemma InterruptedRemoveBreaksInstall(env: Env, s: Store, d: Driver, events: seq<Event>,
                                       current: string, c: StageCalls, i: InstallCalls)
    requires Indexed(env, s, d) && Sound(env, s, d) && !d.builtin && AllKeys(env, events)
    requires forall e :: e in events ==> !Unindexes(env, e, Key(env, d))
    ensures var name := s.cache[Key(env, d)];
            var u := RunFrom(env, ApplyAll(s, Remove(env, s, d, 4).edits[..2]), events);
            var w := Stage(env, u, d, current, c);
            && Install(env, u, d, name, i).result.Error?
            && (w.result.Ok? <==> ReadsWork(c) && ErrorFile(Key(env, d)) !in u.cache)
            && (w.result.Ok? ==> w == Work([], Ok(name)))
  {
    HalfRemoved(env, s, d);
    hide Truthful, Hollow, SameButError, Stage, Install, Remove, IsKey, Unindexes;
    var t := ApplyAll(s, Remove(env, s, d, 4).edits[..2]);
    HollowUntilRemoved(env, t, events, d);
    var u := RunFrom(env, t, events);
    SameFilesSameState(env, t, u, d);
    HollowBreaksInstall(env, u, d, current, c, i);
  }

  // ----- an error beside an index

  /** The key has both an index and an error record. */
  predicate Marked(s: Store, key: string) { key in s.cache && ErrorFile(key) in s.cache }

  /** The event is a Stage that records that it could not read the index. */
  predicate Marks(env: Env, s: Store, e: Event, key: string) {
    && e.op.StageOp? && Key(env, e.op.d) == key && !e.op.d.builtin
    && key in s.cache && ErrorFile(key) !in s.cache
    && e.op.stage.errorRead && !ReadsWork(e.op.stage) && e.op.stage.errorWritten && e.cut > 0
  }

  /** The event takes the index or the error record of the key away, if both are there. */
  predicate Unmarks(env: Env, e: Event, key: string) {
    Key(env, e.op.d) == key &&
      match e.op
      case StageOp(_, _, c) => c.errorRead && c.errorDropped && e.cut > 0
      case InstallOp(_, _, _) => false
      case ClearErrorOp(_) => e.cut > 0
      case RemoveOp(_) => e.cut >= 3
  }

  lemma MarkChanges(env: Env, s: Store, e: Event, d: Driver)
    requires IsKey(Key(env, d)) && IsKey(Key(env, e.op.d)) && Truthful(env, s, d)
    ensures var key, t := Key(env, d), AfterEvent(env, s, e);
            Marked(t, key) <==> Marks(env, s, e, key) || (Marked(s, key) && !Unmarks(env, e, key))
  {
    var key, t := Key(env, d), AfterEvent(env, s, e);
    if Key(env, e.op.d) != key {
      OthersAreUntouched(env, s, e, key);
      OwnFiles(key, "");
      assert SameFile(s, t, key) && SameFile(s, t, ErrorFile(key));
    } else if key in s.cache {
      MarkChangesIndexed(env, s, e, d);
    } else {
      NotMarkedUnindexed(env, s, e);
    }
  }

  lemma FirstEdit(s: Store, e: Edit, cut: nat)
    ensures ApplyAll(s, [e][..Min(cut, 1)]) == if cut > 0 then Apply(s, e) else s
  {
    assert [e][..0] == [] && [e][..1] == [e];
  }

  lemma MarkChangesStaged(env: Env, s: Store, e: Event, d: Driver)
    requires IsKey(Key(env, d)) && Key(env, e.op.d) == Key(env, d) && Truthful(env, s, d) && Key(env, d) in s.cache
    requires e.op.StageOp?
    ensures var key, t := Key(env, d), AfterEvent(env, s, e);
            Marked(t, key) <==> Marks(env, s, e, key) || (Marked(s, key) && !Unmarks(env, e, key))
  {
    var key := Key(env, d);
    var file, x, c := ErrorFile(key), e.op.d, e.op.stage;
    OwnFiles(key, "");
    IndexedLookup(env, s, d);
    hide IsInstalled, Truthful, IsKey, CopyBinary, SafeErrorMessage, ErrorFile;
    if !x.builtin {
      StageWhileIndexed(env, s, x, e.op.current, c);
    }
    FirstEdit(s, DropCache(file), e.cut);
    FirstEdit(s, PutCache(file, c.message), e.cut);
  }

  lemma MarkChangesIndexed(env: Env, s: Store, e: Event, d: Driver)
    requires IsKey(Key(env, d)) && Key(env, e.op.d) == Key(env, d) && Truthful(env, s, d) && Key(env, d) in s.cache
    ensures var key, t := Key(env, d), AfterEvent(env, s, e);
            Marked(t, key) <==> Marks(env, s, e, key) || (Marked(s, key) && !Unmarks(env, e, key))
  {
    var key := Key(env, d);
    OwnFiles(key, s.cache[key]);
    IndexedLookup(env, s, d);
    hide IsInstalled, Truthful, IsKey, Stage;
    match e.op
    case StageOp(_, _, _) =>
      MarkChangesStaged(env, s, e, d);
    case InstallOp(x, raw, c) =>
      InstallIsBinOnly(env, s, x, raw, c);
      hide Install;
      var es := Install(env, s, x, raw, c).edits;
      BinEditsKeepCache(s, es[..Min(e.cut, |es|)]);
    case ClearErrorOp(_) =>
      FirstEdit(s, DropCache(ErrorFile(key)), e.cut);
    case RemoveOp(_) =>
      DeletionSteps(s, key, s.cache[key], Min(e.cut, 4));
  }

  lemma CopyErrorAvoidsIndex(env: Env, key: string, d: Driver, bytes: Bytes, c: StageCalls)
    requires forall name :: PayloadFile(key, name) != key
    ensures var w := CopyBinary(env, key, d, bytes, c);
            w.result.Error? ==> forall e :: e in w.edits ==> Avoids(e, key)
  {
    var payload := Payload(env, d.url, bytes);
    if payload.Some? {
      assert PayloadFile(key, payload.value.0) != key;
    }
    hide Payload, PayloadFile;
  }

  lemma StageErrorAvoidsIndex(env: Env, s: Store, d: Driver, current: string, c: StageCalls)
    requires IsKey(Key(env, d)) && StageInner(env, s, d, current, c).result.Error?
    ensures forall e :: e in StageInner(env, s, d, current, c).edits ==> Avoids(e, Key(env, d))
  {
    var key := Key(env, d);
    forall name ensures PayloadFile(key, name) != key { FileNamesNeverClash(key, name, key, name); }
    hide IsInstalled, HashMatches, Key, IsKey;
    if c.download.Some? {
      CopyErrorAvoidsIndex(env, key, d, c.download.value, c);
      hide DriverCache.CopyBinary;
    }
  }

  /** Without a successful Stage no index appears. */
  lemma EditsAvoidIndex(env: Env, s: Store, op: Op)
    requires IsKey(Key(env, op.d)) && Key(env, op.d) !in s.cache
    requires op.StageOp? ==> Stage(env, s, op.d, op.current, op.stage).result.Error?
    ensures forall x :: x in EditsOf(env, s, op) ==> Avoids(x, Key(env, op.d))
  {
    var key := Key(env, op.d);
    OwnFiles(key, "");
    match op
    case StageOp(d, current, c) =>
      if c.errorRead && ErrorFile(key) !in s.cache {
        StageErrorAvoidsIndex(env, s, d, current, c);
      }
      hide StageInner, SafeErrorMessage;
    case InstallOp(d, raw, c) =>
      InstallIsBinOnly(env, s, d, raw, c);
      hide Install;
    case ClearErrorOp(_) =>
    case RemoveOp(_) =>
  }

  lemma NotMarkedUnindexed(env: Env, s: Store, e: Event)
    requires IsKey(Key(env, e.op.d)) && Key(env, e.op.d) !in s.cache
    ensures !Marked(AfterEvent(env, s, e), Key(env, e.op.d))
  {
    var key := Key(env, e.op.d);
    var es := EditsOf(env, s, e.op);
    if ErrorFile(key) in AfterEvent(env, s, e).cache {
      RecordAfterEvent(env, s, e, key);
      assert e.op.StageOp? ==> StageResult(env, s, e).Error?;
      EditsAvoidIndex(env, s, e.op);
      hide EditsOf;
      AvoidingKeeps(s, es[..Min(e.cut, |es|)], key);
    }
  }

  /** The i-th event recorded an error beside the index, and no later one has taken either
      of them away. */
  ghost predicate LeftMarked(env: Env, events: seq<Event>, key: string, i: nat)
    requires AllKeys(env, events)
  {
    && i < |events| && Marks(env, Before(env, events, i), events[i], key)
    && forall j :: i < j < |events| ==> !Unmarks(env, events[j], key)
  }

  ghost predicate SomeLeftMarked(env: Env, events: seq<Event>, key: string)
    requires AllKeys(env, events)
  {
    exists i: nat :: LeftMarked(env, events, key, i)
  }

  lemma LeftMarkedSnoc(env: Env, events: seq<Event>, key: string)
    requires AllKeys(env, events) && events != []
    ensures var n := |events| - 1;
            SomeLeftMarked(env, events, key) <==>
              Marks(env, Before(env, events, n), events[n], key)
              || (SomeLeftMarked(env, events[..n], key) && !Unmarks(env, events[n], key))
  {
    hide RunFrom, Marks, Unmarks;
    var n := |events| - 1;
    var us, e := events[..n], events[n];
    assert forall i :: 0 <= i <= n ==> us[..i] == events[..i];
    assert forall i: nat :: i < n ==>
      (LeftMarked(env, events, key, i) <==> LeftMarked(env, us, key, i) && !Unmarks(env, e, key));
    assert LeftMarked(env, events, key, n) <==> Marks(env, Before(env, events, n), e, key);
    if i: nat :| LeftMarked(env, us, key, i) {
      assert !Unmarks(env, e, key) ==> LeftMarked(env, events, key, i);
    }
  }

  /** When an error is recorded beside an index: after any run, exactly if some Stage could
      not read the index and recorded that, and nothing has taken the index or the record
      away since. */
  lemma {:induction false} RunMarksExactly(env: Env, events: seq<Event>, known: set<Driver>, d: Driver)
    requires Distinct(env, known) && d in known && AllKeys(env, events)
    requires forall e :: e in events ==> e.op.d in known
    ensures Marked(RunFrom(env, EMPTY_STORE, events), Key(env, d)) <==> SomeLeftMarked(env, events, Key(env, d))
  {
    if events == [] {
      assert !SomeLeftMarked(env, events, Key(env, d));
    } else {
      var n := |events| - 1;
      assert events[n] in events && forall e :: e in events[..n] ==> e in events;
      RunMarksExactly(env, events[..n], known, d);
      RunIsTruthful(env, events[..n], known, d);
      LeftMarkedSnoc(env, events, Key(env, d));
      var s := RunFrom(env, EMPTY_STORE, events[..n]);
      assert IsKey(Key(env, d));
      hide Truthful, Marked, Marks, Unmarks, AfterEvent, SomeLeftMarked, Distinct, IsKey;
      MarkChanges(env, s, events[n], d);
    }
  }

  /** So where every Stage of the key can read, an index and an error never stand side by
      side. */
  lemma NeverMarked(env: Env, events: seq<Event>, known: set<Driver>, d: Driver)
    requires Distinct(env, known) && d in known && AllKeys(env, events)
    requires forall e :: e in events ==> e.op.d in known
    requires NoReadFails(env, events, Key(env, d))
    ensures !Marked(RunFrom(env, EMPTY_STORE, events), Key(env, d))
  {
    RunMarksExactly(env, events, known, d);
    forall i: nat ensures !LeftMarked(env, events, Key(env, d), i) {
      assert i < |events| ==> events[i] in events;
    }
  }
}
