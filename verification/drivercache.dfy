/** The on-disk cache of downloaded drivers and the directory of installed ones
    (dynamic/driver.go): each operation as the list of edits it makes, so that a crash
    can fall after any of them. */
module DriverCache {
  import opened Options
  import opened Orders
  import opened Text
  import opened DriverArchive

  /** File names and contents of the cache directory and of the binary directory. */
  datatype Store = Store(cache: map<string, Bytes>, bin: map<string, Bytes>)

  const EMPTY_STORE := Store(map[], map[])

  datatype Edit =
    | PutCache(name: string, bytes: Bytes)
    | DropCache(name: string)
    | PutBin(name: string, bytes: Bytes)
    | DropBin(name: string)
    | RenameBin(name: string, to: string)

  function Apply(s: Store, e: Edit): Store {
    match e
    case PutCache(n, bytes) => s.(cache := s.cache[n := bytes])
    case DropCache(n) => s.(cache := s.cache - {n})
    case PutBin(n, bytes) => s.(bin := s.bin[n := bytes])
    case DropBin(n) => s.(bin := s.bin - {n})
    case RenameBin(n, to) => if n in s.bin then s.(bin := (s.bin - {n})[to := s.bin[n]]) else s
  }

  function ApplyAll(s: Store, es: seq<Edit>): Store {
    if es == [] then s else Apply(ApplyAll(s, es[..|es| - 1]), es[|es| - 1])
  }

  /** What the world outside decides: digests, how bytes unpack, and the last element of
      a URL's path, if the URL parses. */
  datatype Env = Env(sha256: Bytes -> string, sha512: Bytes -> string,
                     unpack: Bytes -> Unpacked, urlBase: string -> Option<string>)

  datatype Unpacked = Elf | Zip(files: seq<ZipFile>) | Tar(stream: seq<TarEntry>)

  datatype Driver = Driver(builtin: bool, url: string, hash: string)

  function Key(env: Env, d: Driver): string { env.sha256(d.url + d.hash) }

  predicate IsKey(k: string) { |k| == 64 && forall c :: c in k ==> '0' <= c <= '9' || 'a' <= c <= 'f' }

  function PayloadFile(key: string, name: string): string { key + "-" + name }
  function ErrorFile(key: string): string { key + ".error" }

  /** getHasher and compare. */
  predicate HashMatches(env: Env, bytes: Bytes, hash: string) {
    var expected := TrimSpace(ToLower(hash));
    if ByteLen(hash) == 64 then env.sha256(bytes) == expected
    else ByteLen(hash) == 128 && env.sha512(bytes) == expected
  }

  /** The driver name and binary in a download. */
  function Payload(env: Env, url: string, bytes: Bytes): Option<(string, Bytes)> {
    match env.unpack(bytes)
    case Elf =>
      var last := env.urlBase(url);
      var name := if last.None? then Option<string>.None else SafeDriverName(Split(last.value, '_')[0]);
      if name.None? || |bytes| > MAX_PAYLOAD then None else Some((name.value, bytes))
    case Zip(files) => Taken(Extract(ZipEntries(files)))
    case Tar(stream) => Taken(Extract(TarEntries(stream)))
  }

  function Taken(r: Extracted): Option<(string, Bytes)> {
    if r.Extracted? then Some((r.name, r.payload)) else None
  }

  /** isInstalled. */
  datatype Lookup = NotInstalled | Installed(name: string) | Corrupt

  function IsInstalled(cache: map<string, Bytes>, key: string): Lookup {
    if !IsKey(key) then Corrupt
    else if key !in cache then NotInstalled
    else
      var name := SafeDriverName(cache[key]);
      if name.None? then Corrupt else Installed(name.value)
  }

  /** safeErrorMessage. */
  function SafeErrorMessage(message: string): string { Blanked(TrimSpace(message), "") }

  function Blanked(rest: string, clean: string): string
    decreases |rest|
  {
    if rest == "" then clean
    else
      var c := clean + [if rest[0] < '\U{20}' || rest[0] == '\U{7f}' then ' ' else rest[0]];
      if ByteLen(c) >= 4096 then c else Blanked(rest[1..], c)
  }

  /** How a copy into a new file ends: the open fails, or after n bytes the copy or the
      close fails, or all is well. */
  datatype CopyFate = OpenFails | FailsAfter(n: nat) | Complete

  /** How the calls of a Stage turn out. errorRead and errorDropped: opening the cache and
      reading the error file, and removing it. openOk and indexRead: the same for the
      index, inside stage. replaced and discarded: removing an old payload file, and the
      new one after a failure. */
  datatype StageCalls = StageCalls(
    errorRead: bool, errorDropped: bool, openOk: bool, indexRead: bool,
    tempOk: bool, download: Option<Bytes>, closeOk: bool, spoolOk: bool,
    replaced: bool, copy: CopyFate, discarded: bool, indexWritten: bool,
    errorWritten: bool, message: string)

  /** How the calls of an Install turn out. staleDropped and tmpDropped: removing a file in
      the temporary file's way, and that file at the end; their errors are ignored. */
  datatype InstallCalls = InstallCalls(
    openOk: bool, staleDropped: bool, copy: CopyFate, chmodOk: bool, renameOk: bool, tmpDropped: bool)

  /** Everything that a Stage of a cached driver reads can be read. */
  predicate ReadsWork(c: StageCalls) { c.errorRead && c.openOk && c.indexRead }

  /** A stage, install or remove: its edits in order, and the name or the error. */
  datatype Result = Ok(name: string) | Error(message: string)
  datatype Work = Work(edits: seq<Edit>, result: Result)

  /** The first n+1 contents of a file that is created and then filled byte by byte. */
  function Filling(bytes: Bytes, n: nat): seq<Bytes>
    requires n <= |bytes|
  {
    seq(n + 1, i requires 0 <= i <= n => bytes[..i])
  }

  function CacheWrites(name: string, contents: seq<Bytes>): seq<Edit> {
    seq(|contents|, i requires 0 <= i < |contents| => PutCache(name, contents[i]))
  }

  function BinWrites(name: string, contents: seq<Bytes>): seq<Edit> {
    seq(|contents|, i requires 0 <= i < |contents| => PutBin(name, contents[i]))
  }

  /** removeIfPresent of a payload file that has come to nothing. */
  function Discard(c: StageCalls, file: string): seq<Edit> { if c.discarded then [DropCache(file)] else [] }

  /** copyBinary once the download is known to match. An old payload file in the way that
      cannot be removed makes the exclusive open fail. */
  function CopyBinary(env: Env, key: string, d: Driver, bytes: Bytes, c: StageCalls): Work {
    var payload := Payload(env, d.url, bytes);
    if !c.spoolOk || payload.None? || !c.replaced then Work([], Error(c.message))
    else
      var (name, data) := payload.value;
      var dest := PayloadFile(key, name);
      match c.copy
      case OpenFails => Work([DropCache(dest)], Error(c.message))
      case FailsAfter(n) =>
        var written := [DropCache(dest)] + CacheWrites(dest, Filling(data, Min(n, |data|)));
        Work(written + Discard(c, dest), Error(c.message))
      case Complete =>
        var written := [DropCache(dest)] + CacheWrites(dest, Filling(data, |data|));
        if c.indexWritten then Work(written + [PutCache(key, name)], Ok(name))
        else Work(written + Discard(c, dest), Error(c.message))
  }

  /** stage. */
  function StageInner(env: Env, s: Store, d: Driver, current: string, c: StageCalls): Work {
    if d.builtin then Work([], Ok(current))
    else if !c.openOk || !c.indexRead then Work([], Error(c.message))
    else
      match IsInstalled(s.cache, Key(env, d))
      case Corrupt => Work([], Error(c.message))
      case Installed(name) => Work([], Ok(name))
      case NotInstalled =>
        if !c.tempOk || c.download.None? || |c.download.value| > MAX_PAYLOAD
           || !HashMatches(env, c.download.value, d.hash) || !c.closeOk
        then Work([], Error(c.message))
        else CopyBinary(env, Key(env, d), d, c.download.value, c)
  }

  /** Stage: replay a recorded error, otherwise stage and record a new error. An error of
      reading the record is not recorded itself. */
  function Stage(env: Env, s: Store, d: Driver, current: string, c: StageCalls): Work {
    var file := ErrorFile(Key(env, d));
    if !c.errorRead then Work([], Error(c.message))
    else if file in s.cache then
      Work(if c.errorDropped then [DropCache(file)] else [], Error(SafeErrorMessage(s.cache[file])))
    else
      var inner := StageInner(env, s, d, current, c);
      if inner.result.Error? && c.errorWritten
      then Work(inner.edits + [PutCache(file, inner.result.message)], inner.result)
      else inner
  }

  function TmpName(name: string, key: string): string
    requires |key| >= 12
  {
    name + "-tmp-" + key[..12]
  }

  /** removeIfPresent, its error ignored. */
  function DropTmp(tmp: string, dropped: bool): seq<Edit> { if dropped then [DropBin(tmp)] else [] }

  /** Install with the temporary file open: copy cache file src to it, rename it to name. */
  function Publish(s: Store, name: string, tmp: string, src: string, c: InstallCalls): Work {
    if src !in s.cache then Work([PutBin(tmp, "")], Error("no payload"))
    else
      var data := s.cache[src];
      var n := if c.copy.FailsAfter? then Min(c.copy.n, |data|) else |data|;
      var copied := BinWrites(tmp, Filling(data, n));
      if c.copy.FailsAfter? || !c.chmodOk || !c.renameOk then Work(copied, Error("copy"))
      else Work(copied + [RenameBin(tmp, name)], Ok(name))
  }

  /** Install past its checks; the removal of the temporary file is deferred. */
  function InstallFile(s: Store, name: string, tmp: string, src: string, c: InstallCalls): Work {
    var stale := DropTmp(tmp, c.staleDropped);
    if c.copy.OpenFails? then Work(stale, Error("open"))
    else
      var w := Publish(s, name, tmp, src, c);
      Work(stale + w.edits + DropTmp(tmp, c.tmpDropped), w.result)
  }

  /** Install of the driver named raw. */
  function Install(env: Env, s: Store, d: Driver, raw: string, c: InstallCalls): Work
    requires IsKey(Key(env, d))
  {
    var name := SafeDriverName(raw);
    if d.builtin then Work([], Ok(raw))
    else if name.None? then Work([], Error("invalid name"))
    else if !c.openOk then Work([], Error("open"))
    else
      var key := Key(env, d);
      InstallFile(s, name.value, TmpName(name.value, key), PayloadFile(key, name.value), c)
  }

  function Deletions(key: string, name: string): seq<Edit> {
    [DropBin(name), DropCache(PayloadFile(key, name)), DropCache(key), DropCache(ErrorFile(key))]
  }

  /** Remove; the first `steps` of its deletions succeed and the next one fails. */
  function Remove(env: Env, s: Store, d: Driver, steps: nat): Work {
    var key := Key(env, d);
    match IsInstalled(s.cache, key)
    case Corrupt => Work([], Error("corrupt"))
    case NotInstalled => Work([], Ok(""))
    case Installed(name) =>
      var all := Deletions(key, name);
      if steps >= 4 then Work(all, Ok("")) else Work(all[..steps], Error("remove"))
  }

  function ClearError(env: Env, d: Driver): seq<Edit> { [DropCache(ErrorFile(Key(env, d)))] }

  // ----- the invariant

  /** The payload is what a download with the right checksum holds under that name. */
  ghost predicate Genuine(env: Env, d: Driver, name: string, payload: Bytes) {
    exists bytes :: HashMatches(env, bytes, d.hash) && Payload(env, d.url, bytes) == Some((name, payload))
  }

  /** If the driver has an index file, it holds a valid name, and the payload under that
      name is complete and genuine. */
  ghost predicate Sound(env: Env, s: Store, d: Driver) {
    var key := Key(env, d);
    key in s.cache ==>
      var name := s.cache[key];
      && SafeDriverName(name) == Some(name)
      && PayloadFile(key, name) in s.cache
      && Genuine(env, d, name, s.cache[PayloadFile(key, name)])
  }

  /** The drivers in use: their keys are digests, and no two share one. */
  ghost predicate Distinct(env: Env, known: set<Driver>) {
    && (forall d :: d in known ==> IsKey(Key(env, d)))
    && forall d, e :: d in known && e in known && Key(env, d) == Key(env, e) ==> d.url == e.url && d.hash == e.hash
  }

  ghost predicate Invariant(env: Env, s: Store, known: set<Driver>) {
    forall d :: d in known ==> Sound(env, s, d)
  }
}
