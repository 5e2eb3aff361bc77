/** Taking the one driver binary out of a downloaded archive (dynamic/driver.go). */
module DriverArchive {
  import opened Options
  import opened Text
  import opened UnixPath

  type Bytes = string

  datatype EntryKind = DirectoryEntry | RegularFile | OtherFile
  datatype DriverEntry = DriverEntry(name: string, kind: EntryKind, bytes: Bytes)

  datatype ExtractError = UnsafeEntry | NotRegular | MultipleBinaries | NoBinary | TooLarge
  datatype Extracted = Extracted(name: string, payload: Bytes) | Failed(error: ExtractError)

  const PREFIX := "docker-machine-driver-"
  const MAX_PAYLOAD := 536870912

  /** safeDriverName. */
  function SafeDriverName(raw: string): Option<string> {
    var name := TrimSpace(raw);
    if ByteLen(name) <= |PREFIX| || ByteLen(name) > 255 || !HasPrefix(name, PREFIX)
       || '\0' in name || HasPrefix(name, "-") || !IsLocal(name) || Base(name) != name
       || ContainsAny(name, "/\\") || (exists i :: 0 <= i < |name| && (name[i] <= '\U{1f}' || name[i] == '\U{7f}'))
    then None else Some(name)
  }

  /** safeArchiveEntry. */
  function SafeEntry(name: string): Option<string> {
    if name == "" || IsAbs(name) || Contains(name, "\\") || Contains(name, "..") || !IsLocal(name) then None
    else Some(Clean(name))
  }

  /** A name that has been accepted is accepted again, unchanged: an index file read
      back gives the name that was written. */
  lemma SafeDriverNameIsStable(raw: string)
    requires SafeDriverName(raw).Some?
    ensures SafeDriverName(SafeDriverName(raw).value) == SafeDriverName(raw)
  {
  }

  /** An accepted name is a proper file name that begins like a driver. */
  lemma SafeDriverNameIsProper(raw: string)
    requires SafeDriverName(raw).Some?
    ensures var n := SafeDriverName(raw).value; Proper(n) && PREFIX < n
  {
    var n := SafeDriverName(raw).value;
    assert forall i :: 0 <= i < |n| ==> n[i] !in "/\\";
    assert '/' in "/\\";
    if n == PREFIX {
      PrefixBytes();
    }
  }

  predicate PlainChars(s: string) {
    forall i :: 0 <= i < |s| ==> s[i] > '\U{1f}' && s[i] != '\U{7f}' && s[i] != '/' && s[i] != '\\'
  }

  lemma PlainCharsMeans(s: string)
    requires PlainChars(s)
    ensures !ContainsAny(s, "/\\") && '\0' !in s && '/' !in s
  {
    assert forall i :: 0 <= i < |s| ==> s[i] !in "/\\";
  }

  lemma DriverPrefix(name: string)
    requires PREFIX < name
    ensures ByteLen(name) > |PREFIX| && |name| > 2 && !HasPrefix(name, "-")
  {
    var rest := name[|PREFIX|..];
    assert name == PREFIX + rest && name[0] == PREFIX[0];
    PrefixBytes();
    ByteLenConcat(PREFIX, rest);
  }

  /** Which names are accepted as they are. */
  lemma AcceptedAsIs(name: string)
    requires Trimmed(name) && PREFIX < name && PlainChars(name)
    ensures SafeDriverName(name) == if ByteLen(name) <= 255 then Some(name) else None
  {
    DriverPrefix(name);
    PlainCharsMeans(name);
    hide IsLocal, Base, ByteLen, PREFIX, ContainsAny, Trimmed, TrimSpace;
    TrimmedIsFixed(name);
    ProperIsLocal(name);
  }

  lemma SafeDriverNameIsPlain(name: string)
    requires SafeDriverName(name) == Some(name)
    ensures Trimmed(name) && PREFIX < name && PlainChars(name)
  {
    SafeDriverNameIsProper(name);
    TrimSpaceTrims(name);
    assert forall i :: 0 <= i < |name| ==> name[i] !in "/\\";
    assert '/' in "/\\" && '\\' in "/\\";
  }

  lemma PrefixBytes()
    ensures ByteLen(PREFIX) == |PREFIX| == 22
  {
    AsciiLen(PREFIX);
  }

  /** What the loops make of one entry. */
  datatype Class = Refused(error: ExtractError) | Ignored | Binary(name: string, bytes: Bytes)

  function ClassOf(e: DriverEntry): Class {
    var entry := SafeEntry(e.name);
    if entry.None? then Refused(UnsafeEntry)
    else if e.kind == DirectoryEntry then Ignored
    else if e.kind == OtherFile then Refused(NotRegular)
    else
      var name := SafeDriverName(Base(entry.value));
      if name.None? then Ignored else Binary(name.value, e.bytes)
  }

  /** The loops' state: nothing found, one binary, or an error. */
  datatype Scan = Nothing | One(name: string, bytes: Bytes) | Stopped(error: ExtractError)

  function ScanNext(s: Scan, c: Class): Scan {
    if s.Stopped? || c.Ignored? then s
    else if c.Refused? then Stopped(c.error)
    else if s.One? then Stopped(MultipleBinaries)
    else if |c.bytes| > MAX_PAYLOAD then Stopped(TooLarge)
    else One(c.name, c.bytes)
  }

  function ScanAll(cs: seq<Class>): Scan {
    if cs == [] then Nothing else ScanNext(ScanAll(cs[..|cs| - 1]), cs[|cs| - 1])
  }

  function Classes(es: seq<DriverEntry>): seq<Class> {
    seq(|es|, i requires 0 <= i < |es| => ClassOf(es[i]))
  }

  function Conclude(s: Scan): Extracted {
    match s
    case Nothing => Failed(NoBinary)
    case Stopped(error) => Failed(error)
    case One(name, bytes) => Extracted(name, bytes)
  }

  function Extract(es: seq<DriverEntry>): Extracted { Conclude(ScanAll(Classes(es))) }

  // ----- what the scan means

  function Binaries(cs: seq<Class>): seq<Class> {
    if cs == [] then []
    else
      var n := |cs| - 1;
      Binaries(cs[..n]) + if cs[n].Binary? then [cs[n]] else []
  }

  lemma {:induction false} BinariesAre(cs: seq<Class>)
    ensures forall c :: c in Binaries(cs) ==> c.Binary? && c in cs
    ensures forall c :: c in cs && c.Binary? ==> c in Binaries(cs)
  {
    if cs != [] {
      BinariesAre(cs[..|cs| - 1]);
      assert forall x :: x in cs <==> x in cs[..|cs| - 1] || x == cs[|cs| - 1];
    }
  }

  predicate NoneRefused(cs: seq<Class>) { forall c :: c in cs ==> !c.Refused? }

  /** No entry is refused; exactly one is a driver binary; and it fits the limit. */
  predicate Extractable(cs: seq<Class>) {
    && NoneRefused(cs)
    && |Binaries(cs)| == 1
    && forall c :: c in Binaries(cs) && c.Binary? ==> |c.bytes| <= MAX_PAYLOAD
  }

  /** What an entry is: refused if its name is unsafe or it is neither file nor directory;
      a binary if it is a file whose base name, trimmed, is a driver's. */
  lemma ClassMeaning(e: DriverEntry)
    ensures ClassOf(e).Refused? <==> SafeEntry(e.name).None? || e.kind == OtherFile
    ensures ClassOf(e).Binary? <==>
            e.kind == RegularFile && SafeEntry(e.name).Some? && SafeDriverName(Base(SafeEntry(e.name).value)).Some?
    ensures ClassOf(e).Binary? ==>
            ClassOf(e).bytes == e.bytes && ClassOf(e).name == TrimSpace(Base(Clean(e.name))) && ClassOf(e).name != ""
  {
  }

  /** What the scan of these classes says. */
  predicate ScanMeans(cs: seq<Class>, s: Scan) {
    && (s.Nothing? <==> NoneRefused(cs) && Binaries(cs) == [])
    && (s.One? <==> Extractable(cs))
    && (s.One? ==> Binaries(cs) == [Binary(s.name, s.bytes)])
  }

  lemma ClassesSnoc(us: seq<Class>, c: Class)
    ensures Binaries(us + [c]) == if c.Binary? then Binaries(us) + [c] else Binaries(us)
    ensures NoneRefused(us + [c]) <==> NoneRefused(us) && !c.Refused?
  {
    var cs := us + [c];
    assert cs[..|us|] == us;
    assert forall x :: x in cs <==> x in us || x == c;
  }

  lemma ScanMeansNext(us: seq<Class>, c: Class, s: Scan)
    requires ScanMeans(us, s)
    ensures ScanMeans(us + [c], ScanNext(s, c))
  {
    ClassesSnoc(us, c);
    hide Binaries;
    if c.Refused? {
      assert c in us + [c];
    } else if c.Binary? {
      ScanMeansBinary(us, c, s);
    } else {
      assert NoneRefused(us) <==> NoneRefused(us + [c]);
    }
  }

  lemma ScanMeansBinary(us: seq<Class>, c: Class, s: Scan)
    requires ScanMeans(us, s) && c.Binary? && Binaries(us + [c]) == Binaries(us) + [c]
    requires NoneRefused(us + [c]) <==> NoneRefused(us)
    ensures ScanMeans(us + [c], ScanNext(s, c))
  {
    hide Binaries;
    var bs := Binaries(us);
    assert |bs + [c]| == |bs| + 1 && c in bs + [c];
    assert bs == [] ==> bs + [c] == [c];
  }

  lemma {:induction false} ScanMeaning(cs: seq<Class>)
    ensures ScanMeans(cs, ScanAll(cs))
  {
    if cs != [] {
      hide ScanMeans, ScanNext;
      var n := |cs| - 1;
      ScanMeaning(cs[..n]);
      ScanMeansNext(cs[..n], cs[n], ScanAll(cs[..n]));
      assert cs[..n] + [cs[n]] == cs;
    }
  }

  /** Extraction succeeds exactly on an extractable archive, and then yields exactly its
      one binary: the bytes and the trimmed name. */
  lemma ExtractMeaning(es: seq<DriverEntry>)
    ensures Extract(es).Extracted? <==> Extractable(Classes(es))
    ensures Extract(es).Extracted? ==> Binaries(Classes(es)) == [Binary(Extract(es).name, Extract(es).payload)]
  {
    ScanMeaning(Classes(es));
  }

  /** A file with a safe name whose base name, trimmed, is a driver's. */
  predicate IsBinary(e: DriverEntry) {
    e.kind == RegularFile && SafeEntry(e.name).Some? && SafeDriverName(Base(Clean(e.name))).Some?
  }

  predicate AllSafe(es: seq<DriverEntry>) {
    forall e :: e in es ==> SafeEntry(e.name).Some? && e.kind != OtherFile
  }

  /** The i-th entry is the only binary. */
  predicate OnlyBinary(es: seq<DriverEntry>, i: nat) {
    i < |es| && IsBinary(es[i]) && forall j :: 0 <= j < |es| && j != i ==> !IsBinary(es[j])
  }

  lemma {:induction false} NoBinaries(cs: seq<Class>)
    ensures Binaries(cs) == [] <==> forall j :: 0 <= j < |cs| ==> !cs[j].Binary?
  {
    if cs != [] {
      NoBinaries(cs[..|cs| - 1]);
    }
  }

  /** The i-th class is the only binary. */
  predicate Alone(cs: seq<Class>, i: nat) {
    i < |cs| && cs[i].Binary? && forall j :: 0 <= j < |cs| && j != i ==> !cs[j].Binary?
  }

  lemma {:induction false} AloneIsAll(cs: seq<Class>, i: nat)
    requires Alone(cs, i)
    ensures Binaries(cs) == [cs[i]]
  {
    var n := |cs| - 1;
    if i < n {
      AloneIsAll(cs[..n], i);
    } else {
      NoBinaries(cs[..n]);
    }
  }

  lemma {:induction false} FindAlone(cs: seq<Class>) returns (i: nat)
    requires |Binaries(cs)| == 1
    ensures Alone(cs, i)
  {
    var n := |cs| - 1;
    if cs[n].Binary? {
      NoBinaries(cs[..n]);
      i := n;
    } else {
      i := FindAlone(cs[..n]);
    }
  }

  lemma EntryClasses(es: seq<DriverEntry>)
    ensures AllSafe(es) <==> NoneRefused(Classes(es))
    ensures forall i :: 0 <= i < |es| ==> (IsBinary(es[i]) <==> Classes(es)[i].Binary?)
    ensures forall i :: 0 <= i < |es| && IsBinary(es[i]) ==>
              Classes(es)[i] == Binary(TrimSpace(Base(Clean(es[i].name))), es[i].bytes)
  {
    var cs := Classes(es);
    forall i | 0 <= i < |es|
      ensures cs[i].Refused? <==> SafeEntry(es[i].name).None? || es[i].kind == OtherFile
      ensures IsBinary(es[i]) <==> cs[i].Binary?
      ensures IsBinary(es[i]) ==> cs[i] == Binary(TrimSpace(Base(Clean(es[i].name))), es[i].bytes)
    {
      ClassMeaning(es[i]);
    }
    hide ClassOf, SafeEntry, IsBinary;
    if AllSafe(es) {
      forall c | c in cs ensures !c.Refused? {
        var i :| 0 <= i < |cs| && cs[i] == c;
        assert es[i] in es;
      }
    } else {
      var e :| e in es && (SafeEntry(e.name).None? || e.kind == OtherFile);
      var i :| 0 <= i < |es| && es[i] == e;
      assert cs[i] in cs;
    }
  }

  /** Extraction, entry by entry: it succeeds exactly if every entry has a safe name and
      is a file or directory, and exactly one is a driver binary, within the limit; then
      it yields that entry's bytes and trimmed base name. */
  lemma ExtractionExactly(es: seq<DriverEntry>)
    ensures Extract(es).Extracted? <==>
            AllSafe(es) && exists i: nat :: OnlyBinary(es, i) && |es[i].bytes| <= MAX_PAYLOAD
    ensures forall i: nat :: Extract(es).Extracted? && OnlyBinary(es, i) ==>
              Extract(es) == Extracted(TrimSpace(Base(Clean(es[i].name))), es[i].bytes)
  {
    var cs := Classes(es);
    ExtractMeaning(es);
    EntryClasses(es);
    hide ClassOf, Extract, IsBinary, Binaries, AllSafe, Base, Clean, TrimSpace, NoneRefused;
    forall i: nat ensures OnlyBinary(es, i) <==> Alone(cs, i) { }
    if |Binaries(cs)| == 1 {
      var i := FindAlone(cs);
      AloneIsAll(cs, i);
      assert OnlyBinary(es, i);
    }
    forall i: nat | OnlyBinary(es, i) ensures Binaries(cs) == [cs[i]] && cs[i] in Binaries(cs) {
      AloneIsAll(cs, i);
    }
  }

  lemma BinaryNameIsSafe(e: DriverEntry)
    requires ClassOf(e).Binary?
    ensures SafeDriverName(ClassOf(e).name) == Some(ClassOf(e).name)
  {
    SafeDriverNameIsStable(Base(SafeEntry(e.name).value));
  }

  /** The extracted name is the accepted name of one of the entries. */
  lemma ExtractedNameIsSafe(es: seq<DriverEntry>)
    requires Extract(es).Extracted?
    ensures SafeDriverName(Extract(es).name) == Some(Extract(es).name)
  {
    ExtractMeaning(es);
    var cs := Classes(es);
    BinariesAre(cs);
    hide ClassOf, SafeDriverName, Extract, Binaries;
    var c := Binary(Extract(es).name, Extract(es).payload);
    assert c in Binaries(cs);
    var i :| 0 <= i < |cs| && cs[i] == c;
    BinaryNameIsSafe(es[i]);
  }

  lemma {:induction false} BinariesCount(cs: seq<Class>, c: Class)
    ensures multiset(Binaries(cs))[c] == if c.Binary? then multiset(cs)[c] else 0
  {
    if cs != [] {
      var n := |cs| - 1;
      BinariesCount(cs[..n], c);
      assert cs == cs[..n] + [cs[n]];
    }
  }

  lemma ClassesAppend(a: seq<DriverEntry>, b: seq<DriverEntry>)
    ensures Classes(a + b) == Classes(a) + Classes(b)
  {
    hide ClassOf;
  }

  lemma RemoveOne(fs: seq<DriverEntry>, i: nat, gs: seq<DriverEntry>)
    requires i < |fs| && gs == fs[..i] + fs[i + 1..]
    ensures multiset(fs) == multiset(gs) + multiset{fs[i]}
    ensures multiset(Classes(fs)) == multiset(Classes(gs)) + multiset{ClassOf(fs[i])}
  {
    var a, b, c := fs[..i], [fs[i]], fs[i + 1..];
    assert fs == a + (b + c);
    ClassesAppend(a, b + c);
    ClassesAppend(b, c);
    ClassesAppend(a, c);
    assert Classes(b) == [ClassOf(fs[i])];
  }

  lemma {:induction false} ClassesCount(es: seq<DriverEntry>, fs: seq<DriverEntry>)
    requires multiset(es) == multiset(fs)
    ensures multiset(Classes(es)) == multiset(Classes(fs))
    decreases |es|
  {
    if es == [] {
      assert |fs| == |multiset(fs)| == 0;
    } else {
      assert es[0] in multiset(es);
      var i :| 0 <= i < |fs| && fs[i] == es[0];
      var gs := fs[..i] + fs[i + 1..];
      RemoveOne(es, 0, es[1..]);
      RemoveOne(fs, i, gs);
      assert multiset(es[1..]) == multiset(es) - multiset{es[0]} == multiset(gs);
      ClassesCount(es[1..], gs);
    }
  }

  /** The order of the entries does not matter to what is extracted. */
  lemma ExtractIgnoresOrder(es: seq<DriverEntry>, fs: seq<DriverEntry>)
    requires multiset(es) == multiset(fs)
    ensures Extract(es).Extracted? <==> Extract(fs).Extracted?
    ensures Extract(es).Extracted? ==> Extract(es) == Extract(fs)
  {
    ClassesCount(es, fs);
    ExtractMeaning(es);
    ExtractMeaning(fs);
    SameBinaries(Classes(es), Classes(fs));
  }

  lemma SameMembers<T>(a: seq<T>, b: seq<T>)
    requires multiset(a) == multiset(b)
    ensures |a| == |b| && forall x :: x in a <==> x in b
  {
    assert |a| == |multiset(a)| && |b| == |multiset(b)|;
    assert forall x :: x in a <==> x in multiset(a);
    assert forall x :: x in b <==> x in multiset(b);
  }

  lemma SameBinaries(cs: seq<Class>, ds: seq<Class>)
    requires multiset(cs) == multiset(ds)
    ensures Extractable(cs) <==> Extractable(ds)
    ensures |Binaries(cs)| == 1 ==> Binaries(cs) == Binaries(ds)
  {
    var bs, bt := Binaries(cs), Binaries(ds);
    forall c ensures multiset(bs)[c] == multiset(bt)[c] {
      BinariesCount(cs, c);
      BinariesCount(ds, c);
    }
    assert multiset(bs) == multiset(bt);
    hide Binaries;
    SameMembers(cs, ds);
    SameMembers(bs, bt);
    if |bs| == 1 {
      assert bs[0] in bt;
    }
  }

  /** The temporary file that the payload is copied to. */
  class TempFile {
    var content: Bytes

    constructor ()
      ensures content == ""
    {
      content := "";
    }

    /** copyWithLimit: reads one byte past the limit to notice that it is exceeded. */
    method CopyWithLimit(source: Bytes) returns (ok: bool)
      modifies this
      ensures ok <==> |source| <= MAX_PAYLOAD
      ensures ok ==> content == old(content) + source
    {
      var written := if |source| <= MAX_PAYLOAD + 1 then source else source[..MAX_PAYLOAD + 1];
      content := content + written;
      return |written| <= MAX_PAYLOAD;
    }
  }

  /** What the variables of the loops hold after the entries scanned so far. */
  predicate Holds(s: Scan, found: string, content: Bytes) {
    match s
    case Stopped(_) => false
    case Nothing => found == "" && content == ""
    case One(name, bytes) => found == name != "" && content == bytes
  }

  lemma ScanStep(es: seq<DriverEntry>, i: nat)
    requires i < |es|
    ensures ScanAll(Classes(es)[..i + 1]) == ScanNext(ScanAll(Classes(es)[..i]), ClassOf(es[i]))
  {
    assert Classes(es)[..i + 1][..i] == Classes(es)[..i];
  }

  lemma {:induction false} StoppedStays(cs: seq<Class>, i: nat)
    requires i <= |cs| && ScanAll(cs[..i]).Stopped?
    ensures ScanAll(cs) == ScanAll(cs[..i])
    decreases |cs| - i
  {
    if i < |cs| {
      assert cs[..i + 1][..i] == cs[..i];
      StoppedStays(cs, i + 1);
    } else {
      assert cs[..i] == cs;
    }
  }

  // ----- the two formats

  /** A file of a zip archive, with what its mode says. */
  datatype ZipFile = ZipFile(name: string, isDir: bool, isRegular: bool, bytes: Bytes)

  /** A header of a tar stream and the bytes that follow it. */
  datatype TarEntry = TarEntry(name: string, typeflag: char, bytes: Bytes)

  const TYPE_REG := '0'
  const TYPE_REG_A := '\0'
  const TYPE_DIR := '5'

  function FromZip(f: ZipFile): DriverEntry {
    DriverEntry(f.name, if f.isDir then DirectoryEntry else if f.isRegular then RegularFile else OtherFile, f.bytes)
  }

  function FromTar(t: TarEntry): DriverEntry {
    DriverEntry(t.name,
                if t.typeflag == TYPE_DIR then DirectoryEntry
                else if t.typeflag == TYPE_REG || t.typeflag == TYPE_REG_A then RegularFile
                else OtherFile,
                t.bytes)
  }

  function ZipEntries(files: seq<ZipFile>): seq<DriverEntry> {
    seq(|files|, i requires 0 <= i < |files| => FromZip(files[i]))
  }

  function TarEntries(stream: seq<TarEntry>): seq<DriverEntry> {
    seq(|stream|, i requires 0 <= i < |stream| => FromTar(stream[i]))
  }

  /** The body of the loop of copyDriverFromZip: an error, or the name found so far. */
  method VisitZip(file: ZipFile, found: string, destination: TempFile, ghost s: Scan)
    returns (error: Option<ExtractError>, now: string)
    requires Holds(s, found, destination.content)
    modifies destination
    ensures error.Some? ==> ScanNext(s, ClassOf(FromZip(file))) == Stopped(error.value)
    ensures error.None? ==> Holds(ScanNext(s, ClassOf(FromZip(file))), now, destination.content)
  {
    hide SafeEntry, SafeDriverName, Base, Clean;
    now := found;
    var entry := SafeEntry(file.name);
    if entry.None? {
      return Some(UnsafeEntry), now;
    }
    if file.isDir {
      return None, now;
    }
    if !file.isRegular {
      return Some(NotRegular), now;
    }
    var name := SafeDriverName(Base(entry.value));
    if name.None? {
      return None, now;
    }
    if found != "" {
      return Some(MultipleBinaries), now;
    }
    var ok := destination.CopyWithLimit(file.bytes);
    if !ok {
      return Some(TooLarge), now;
    }
    SafeDriverNameIsProper(Base(entry.value));
    return None, name.value;
  }

  /** copyDriverFromZip: a loop over the directory of the archive. */
  method CopyDriverFromZip(files: seq<ZipFile>, destination: TempFile) returns (r: Extracted)
    requires destination.content == ""
    modifies destination
    ensures r == Extract(ZipEntries(files))
    ensures r.Extracted? ==> destination.content == r.payload
  {
    var found := "";
    ghost var es := ZipEntries(files);
    ghost var cs := Classes(es);
    var i := 0;
    while i < |files|
      invariant 0 <= i <= |files| && Holds(ScanAll(cs[..i]), found, destination.content)
    {
      var error;
      ScanStep(es, i);
      error, found := VisitZip(files[i], found, destination, ScanAll(cs[..i]));
      i := i + 1;
      if error.Some? {
        StoppedStays(cs, i);
        return Failed(error.value);
      }
    }
    assert cs[..i] == cs;
    return if found == "" then Failed(NoBinary) else Extracted(found, destination.content);
  }

  /** A tar stream; Next is reader.Next, with None at its end. */
  class TarReader {
    const entries: seq<TarEntry>
    var next: nat

    constructor (entries: seq<TarEntry>)
      ensures this.entries == entries && next == 0
    {
      this.entries, next := entries, 0;
    }

    method Next() returns (e: Option<TarEntry>)
      modifies this
      ensures e == if old(next) < |entries| then Some(entries[old(next)]) else None
      ensures next == if old(next) < |entries| then old(next) + 1 else old(next)
    {
      if next >= |entries| {
        return None;
      }
      e := Some(entries[next]);
      next := next + 1;
    }
  }

  /** The body of the loop of copyDriverFromTar. */
  method VisitTar(header: TarEntry, found: string, destination: TempFile, ghost s: Scan)
    returns (error: Option<ExtractError>, now: string)
    requires Holds(s, found, destination.content)
    modifies destination
    ensures error.Some? ==> ScanNext(s, ClassOf(FromTar(header))) == Stopped(error.value)
    ensures error.None? ==> Holds(ScanNext(s, ClassOf(FromTar(header))), now, destination.content)
  {
    hide SafeEntry, SafeDriverName, Base, Clean;
    now := found;
    var entry := SafeEntry(header.name);
    if entry.None? {
      return Some(UnsafeEntry), now;
    }
    if header.typeflag == TYPE_DIR {
      return None, now;
    }
    if header.typeflag != TYPE_REG && header.typeflag != TYPE_REG_A {
      return Some(NotRegular), now;
    }
    var name := SafeDriverName(Base(entry.value));
    if name.None? {
      return None, now;
    }
    if found != "" {
      return Some(MultipleBinaries), now;
    }
    var ok := destination.CopyWithLimit(header.bytes);
    if !ok {
      return Some(TooLarge), now;
    }
    SafeDriverNameIsProper(Base(entry.value));
    return None, name.value;
  }

  /** copyDriverFromTar: reads the stream until its end. */
  method CopyDriverFromTar(reader: TarReader, destination: TempFile) returns (r: Extracted)
    requires destination.content == "" && reader.next == 0
    modifies reader, destination
    ensures r == Extract(TarEntries(reader.entries))
    ensures r.Extracted? ==> destination.content == r.payload
  {
    var found := "";
    ghost var es := TarEntries(reader.entries);
    ghost var cs := Classes(es);
    while true
      invariant reader.next <= |reader.entries|
      invariant Holds(ScanAll(cs[..reader.next]), found, destination.content)
      decreases |reader.entries| - reader.next
    {
      ghost var i := reader.next;
      var header := reader.Next();
      if header.None? {
        break;
      }
      var error;
      ScanStep(es, i);
      error, found := VisitTar(header.value, found, destination, ScanAll(cs[..i]));
      if error.Some? {
        StoppedStays(cs, i + 1);
        return Failed(error.value);
      }
    }
    assert cs[..reader.next] == cs;
    return if found == "" then Failed(NoBinary) else Extracted(found, destination.content);
  }
}
