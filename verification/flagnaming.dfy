/** Driver flags become camelCase schema fields (dynamic/utils.go, driver_info.go), and
    fields become flags again by another algorithm (handlers/create.go). */
module FlagNaming {
  import opened Text
  import opened UnixPath

  datatype CamelResult = NotAFlag | Panics | Field(name: string)

  function Capitalised(part: string): string
    requires part != ""
  {
    [UpperChar(part[0])] + part[1..]
  }

  predicate LaterPartsNonempty(parts: seq<string>) { forall i :: 1 <= i < |parts| ==> parts[i] != "" }

  function Camel(parts: seq<string>): string
    requires parts != [] && LaterPartsNonempty(parts)
  {
    if |parts| == 1 then parts[0] else Camel(parts[..|parts| - 1]) + Capitalised(Last(parts))
  }

  /** What toLowerCamelCase returns; slicing the first byte of an empty part panics. */
  function CamelField(flag: string): CamelResult {
    var cut := Cut(flag, '-');
    if !cut.1 then NotAFlag
    else
      var parts := Split(cut.2, '-');
      if LaterPartsNonempty(parts) then Field(Camel(parts)) else Panics
  }

  /** A hyphen at the end, or two in a row. */
  predicate LooseHyphen(s: string) {
    (s != "" && s[|s| - 1] == '-') || exists i :: 0 <= i < |s| - 1 && s[i] == s[i + 1] == '-'
  }

  lemma {:induction false} LaterPartsExactly(s: string)
    ensures LaterPartsNonempty(Split(s, '-')) <==> !LooseHyphen(s)
    ensures Split(s, '-')[0] == "" <==> s == "" || s[0] == '-'
  {
    if s != "" {
      LaterPartsExactly(s[1..]);
      var rest, parts := Split(s[1..], '-'), Split(s, '-');
      if s[0] == '-' {
        assert forall i :: 0 <= i < |rest| ==> parts[i + 1] == rest[i];
        assert LaterPartsNonempty(parts) <==> rest[0] != "" && LaterPartsNonempty(rest);
      } else {
        assert forall i :: 1 <= i < |rest| ==> parts[i] == rest[i];
      }
      LooseNext(s);
    }
  }

  lemma LooseNext(s: string)
    requires s != ""
    ensures LooseHyphen(s) <==> (s[0] == '-' && (|s| == 1 || s[1] == '-')) || LooseHyphen(s[1..])
  {
    var t := s[1..];
    if i :| 0 <= i < |s| - 1 && s[i] == s[i + 1] == '-' {
      assert i > 0 ==> t[i - 1] == t[i] == '-';
    }
    if i :| 0 <= i < |t| - 1 && t[i] == t[i + 1] == '-' {
      assert s[i + 1] == s[i + 2] == '-';
    }
  }

  /** Which flags have no field: those without a hyphen, and, by a panic, those that behind
      the first hyphen end in one or have two in a row. */
  lemma CamelFieldExactly(flag: string)
    ensures CamelField(flag).NotAFlag? <==> '-' !in flag
    ensures CamelField(flag).Panics? <==> '-' in flag && LooseHyphen(Cut(flag, '-').2)
  {
    LaterPartsExactly(Cut(flag, '-').2);
    hide LooseHyphen;
  }

  method ToLowerCamelCase(flag: string) returns (r: CamelResult)
    ensures r == CamelField(flag)
  {
    var cut := Cut(flag, '-');
    if !cut.1 {
      return NotAFlag;
    }
    var parts := Split(cut.2, '-');
    var flagName := parts[0];
    var i := 1;
    while i < |parts|
      invariant 1 <= i <= |parts| && LaterPartsNonempty(parts[..i]) && flagName == Camel(parts[..i])
    {
      if parts[i] == "" {
        return Panics;
      }
      assert parts[..i + 1][..i] == parts[..i];
      flagName := flagName + Capitalised(parts[i]);
      i := i + 1;
    }
    assert parts[..i] == parts;
    return Field(flagName);
  }

  // ----- back to a flag

  /** ReplaceAllString of "([a-z])([A-Z])" by "${1}-${2}": leftmost matches, each going on
      after the last. */
  function Replaced(s: string): string {
    if |s| >= 2 && IsLower(s[0]) && IsUpper(s[1]) then [s[0], '-', s[1]] + Replaced(s[2..])
    else if s == "" then "" else [s[0]] + Replaced(s[1..])
  }

  function Hyphenated(field: string): string { ToLower(Replaced(field)) }

  /** The flag that buildMachineCreateCmd makes of a field. */
  function CreateFlag(driver: string, field: string): string {
    "--" + ToLower(driver) + "-" + Hyphenated(field)
  }

  predicate Boundary(left: string, right: string) {
    left != "" && right != "" && IsLower(Last(left)) && IsUpper(right[0])
  }

  lemma UpperFirst(b: string)
    requires b != "" && IsUpper(b[0])
    ensures Replaced(b) == [b[0]] + Replaced(b[1..])
  {
  }

  lemma ReplacedFirst(a: string, b: string)
    requires |a| == 1
    ensures Replaced(a + b) == Replaced(a) + (if Boundary(a, b) then "-" else "") + Replaced(b)
  {
    assert (a + b)[1..] == b && a[1..] == "" && Replaced(a) == a;
    if Boundary(a, b) {
      assert (a + b)[2..] == b[1..];
      UpperFirst(b);
      assert Replaced(a + b) == [a[0], '-', b[0]] + Replaced(b[1..]);
    }
  }

  /** How many characters the replacement takes at once, and what it makes of them. */
  lemma ReplacedNext(a: string, b: string) returns (n: nat, head: string)
    requires |a| >= 2
    ensures 1 <= n <= 2 && Boundary(a, b) == Boundary(a[n..], b)
    ensures Replaced(a) == head + Replaced(a[n..]) && Replaced(a + b) == head + Replaced(a[n..] + b)
  {
    if IsLower(a[0]) && IsUpper(a[1]) {
      n, head := 2, [a[0], '-', a[1]];
      assert !IsLower(a[1]);
    } else {
      n, head := 1, [a[0]];
    }
    assert (a + b)[n..] == a[n..] + b;
    assert a[n..] != "" ==> Last(a) == Last(a[n..]);
  }

  /** The replacement works piece by piece: a hyphen between two pieces exactly where a
      lower-case letter meets an upper-case one. */
  lemma {:induction false} ReplacedConcat(a: string, b: string)
    ensures Replaced(a + b) == Replaced(a) + (if Boundary(a, b) then "-" else "") + Replaced(b)
  {
    if a == "" {
      assert a + b == b;
    } else if |a| == 1 {
      ReplacedFirst(a, b);
    } else {
      hide Replaced, Boundary;
      var n, head := ReplacedNext(a, b);
      ReplacedConcat(a[n..], b);
      var h := if Boundary(a, b) then "-" else "";
      Associative(head, Replaced(a[n..]) + h, Replaced(b));
      Associative(head, Replaced(a[n..]), h);
    }
  }

  lemma HyphenatedConcat(a: string, b: string)
    ensures Hyphenated(a + b) == Hyphenated(a) + (if Boundary(a, b) then "-" else "") + Hyphenated(b)
  {
    ReplacedConcat(a, b);
    var h := if Boundary(a, b) then "-" else "";
    ToLowerAppend(Replaced(a) + h, Replaced(b));
    ToLowerAppend(Replaced(a), h);
    assert ToLower(h) == h;
  }

  lemma {:induction false} NoUpperUnchanged(s: string)
    requires forall c :: c in s ==> !IsUpper(c)
    ensures Hyphenated(s) == s
  {
    ReplacedPlain(s);
    assert forall i :: 0 <= i < |s| ==> s[i] in s;
  }

  lemma {:induction false} ReplacedPlain(s: string)
    requires forall c :: c in s ==> !IsUpper(c)
    ensures Replaced(s) == s
  {
    if s != "" {
      assert |s| >= 2 ==> s[1] in s;
      assert forall c :: c in s[1..] ==> c in s;
      ReplacedPlain(s[1..]);
    }
  }

  /** Hyphenating a capitalised part gives the part back. */
  lemma HyphenatedCapitalised(part: string)
    requires part != "" && forall c :: c in part ==> !IsUpper(c)
    ensures Hyphenated(Capitalised(part)) == part
  {
    var head, tail := [UpperChar(part[0])], part[1..];
    assert part[0] in part && forall c :: c in tail ==> c in part;
    ReplacedConcat(head, tail);
    ReplacedPlain(tail);
    assert Replaced(head) == head;
    assert !Boundary(head, tail);
    assert Replaced(Capitalised(part)) == head + tail;
    assert forall i :: 0 <= i < |tail| ==> tail[i] in tail;
  }

  // ----- when the flag comes back

  /** Parts of a flag: ASCII, no upper case, no hyphen, and not empty after the first. */
  predicate PlainParts(parts: seq<string>) {
    && parts != [] && LaterPartsNonempty(parts)
    && forall p :: p in parts ==> forall c :: c in p ==> c < '\U{80}' && !IsUpper(c) && c != '-'
  }

  /** One part; or the first part ends in a letter, every later part starts with one, and
      every middle part is longer than one character and ends in one. */
  predicate Reversible(parts: seq<string>)
    requires PlainParts(parts)
  {
    |parts| == 1 ||
    (&& parts[0] != "" && IsLower(Last(parts[0]))
     && (forall i :: 1 <= i < |parts| ==> IsLower(parts[i][0]))
     && (forall i :: 1 <= i < |parts| - 1 ==> |parts[i]| >= 2 && IsLower(Last(parts[i]))))
  }

  /** The condition at the boundary before the last part. */
  predicate LastBoundary(parts: seq<string>)
    requires PlainParts(parts) && |parts| >= 2
  {
    var p := parts[|parts| - 2];
    p != "" && IsLower(Last(p)) && (|parts| == 2 || |p| >= 2) && IsLower(Last(parts)[0])
  }

  lemma ReversibleInit(parts: seq<string>)
    requires PlainParts(parts) && |parts| >= 2
    ensures PlainParts(parts[..|parts| - 1])
    ensures Reversible(parts) <==> Reversible(parts[..|parts| - 1]) && LastBoundary(parts)
  {
    var init := parts[..|parts| - 1];
    assert forall p :: p in init ==> p in parts;
    assert forall i :: 0 <= i < |init| ==> init[i] == parts[i];
    if Reversible(init) && LastBoundary(parts) && |parts| > 2 {
      assert forall i :: 1 <= i < |init| ==> IsLower(init[i][0]);
    }
  }

  lemma CamelEnd(parts: seq<string>)
    requires PlainParts(parts)
    ensures var c, p := Camel(parts), Last(parts);
            c != "" && IsLower(Last(c)) <==> p != "" && IsLower(Last(p)) && (|parts| == 1 || |p| >= 2)
  {
  }

  lemma BoundaryMeaning(parts: seq<string>)
    requires PlainParts(parts) && |parts| >= 2 && PlainParts(parts[..|parts| - 1])
    ensures Boundary(Camel(parts[..|parts| - 1]), Capitalised(Last(parts))) <==> LastBoundary(parts)
  {
    var init, p := parts[..|parts| - 1], Last(parts);
    assert p in parts && p[0] in p;
    CamelEnd(init);
    assert Last(init) == parts[|parts| - 2];
  }

  /** Hyphenating the camelCase of the parts, one part at a time. */
  lemma HyphenatedCamel(parts: seq<string>)
    requires PlainParts(parts) && |parts| >= 2
    ensures PlainParts(parts[..|parts| - 1])
    ensures Hyphenated(Camel(parts)) ==
            Hyphenated(Camel(parts[..|parts| - 1])) + (if LastBoundary(parts) then "-" else "") + Last(parts)
  {
    ReversibleInit(parts);
    var p := Last(parts);
    assert p in parts;
    BoundaryMeaning(parts);
    HyphenatedCapitalised(p);
    HyphenatedConcat(Camel(parts[..|parts| - 1]), Capitalised(p));
  }

  lemma {:induction false} JoinSnoc(parts: seq<string>, sep: char)
    requires |parts| >= 2
    ensures Join(parts, sep) == Join(parts[..|parts| - 1], sep) + [sep] + Last(parts)
  {
    var init := parts[..|parts| - 1];
    if |parts| > 2 {
      JoinSnoc(parts[1..], sep);
      assert parts[1..][..|parts| - 2] == init[1..];
    }
  }

  /** The naming round trip: hyphenating the camelCase of a flag's parts gives the parts
      back exactly when they are reversible. */
  lemma {:induction false} NamingRoundTrip(parts: seq<string>)
    requires PlainParts(parts)
    ensures |Hyphenated(Camel(parts))| <= |Join(parts, '-')|
    ensures Hyphenated(Camel(parts)) == Join(parts, '-') <==> Reversible(parts)
  {
    if |parts| == 1 {
      assert parts[0] in parts;
      NoUpperUnchanged(parts[0]);
    } else {
      var init, p := parts[..|parts| - 1], Last(parts);
      ReversibleInit(parts);
      HyphenatedCamel(parts);
      JoinSnoc(parts, '-');
      NamingRoundTrip(init);
      var h := if LastBoundary(parts) then "-" else "";
      var left, right := Hyphenated(Camel(init)), Join(init, '-');
      if left + h + p == right + ['-'] + p {
        assert |left| == |right| && |h| == 1;
        assert left == (left + h + p)[..|left|] && right == (right + ['-'] + p)[..|right|];
      }
    }
  }

  /** The flag of a driver with these parts. */
  function FlagOf(driver: string, parts: seq<string>): string { driver + ['-'] + Join(parts, '-') }

  /** A flag becomes the camelCase of its parts, and its create flag is the flag itself
      exactly when the driver is in lower case and the parts are reversible. */
  lemma FlagRoundTrip(driver: string, parts: seq<string>)
    requires '-' !in driver && PlainParts(parts)
    ensures CamelField(FlagOf(driver, parts)) == Field(Camel(parts))
    ensures CreateFlag(driver, Camel(parts)) == "--" + FlagOf(driver, parts) <==>
            ToLower(driver) == driver && Reversible(parts)
  {
    hide Reversible, Hyphenated, Camel;
    CutAround(driver, '-', Join(parts, '-'));
    forall p | p in parts ensures '-' !in p { }
    SplitJoin(parts, '-');
    NamingRoundTrip(parts);
    var a, b := CreateFlag(driver, Camel(parts)), "--" + FlagOf(driver, parts);
    var lower := ToLower(driver);
    assert a[2..][..|lower|] == lower && b[2..][..|driver|] == driver;
    assert a[2..][|lower| + 1..] == Hyphenated(Camel(parts)) && b[2..][|driver| + 1..] == Join(parts, '-');
  }

  /** Reversible flags of one driver with the same field are the same flag. */
  lemma FieldsDoNotCollide(driver: string, parts: seq<string>, others: seq<string>)
    requires PlainParts(parts) && PlainParts(others) && Reversible(parts) && Reversible(others)
    requires Camel(parts) == Camel(others)
    ensures FlagOf(driver, parts) == FlagOf(driver, others)
  {
    NamingRoundTrip(parts);
    NamingRoundTrip(others);
  }

  // ----- the schema map

  datatype FlagKind = StringFlag | IntFlag | BoolFlag | StringSliceFlag | UnknownFlag
  datatype Flag = Flag(name: string, kind: FlagKind)
  datatype FieldType = StringType | BooleanType | ArrayType
  datatype SchemaResult = Schema(fields: map<string, FieldType>) | SchemaError | SchemaPanic

  function TypeOf(kind: FlagKind): FieldType {
    match kind
    case BoolFlag => BooleanType
    case StringSliceFlag => ArrayType
    case _ => StringType
  }

  /** The fields that are withheld from the schema of some drivers. */
  function HiddenFields(driver: string): seq<string> {
    match driver
    case "aliyunecs" => ["sshKeypath"]
    case "amazonec2" => ["keypairName", "sshKeypath", "userdata"]
    case "azure" => ["customData"]
    case "digitalocean" => ["sshKeyPath", "userdata"]
    case "ecl" => ["privateKeyFile"]
    case "exoscale" => ["sshKey", "userdata"]
    case "generic" => ["sshKey"]
    case "hetzner" => ["existingKeyId", "existingKeyPath"]
    case "openstack" => ["privateKeyFile"]
    case "otc" => ["privateKeyFile"]
    case "qingcloud" => ["sshKeypath"]
    case "vultr" => ["userdata"]
    case _ => []
  }

  /** Which fields are withheld, by name. */
  lemma WithheldFields()
    ensures HiddenFields("amazonec2") == ["keypairName", "sshKeypath", "userdata"]
    ensures HiddenFields("digitalocean") == ["sshKeyPath", "userdata"]
    ensures HiddenFields("hetzner") == ["existingKeyId", "existingKeyPath"]
    ensures HiddenFields("exoscale") == ["sshKey", "userdata"]
    ensures HiddenFields("aliyunecs") == HiddenFields("qingcloud") == ["sshKeypath"]
    ensures HiddenFields("ecl") == HiddenFields("openstack") == HiddenFields("otc") == ["privateKeyFile"]
    ensures HiddenFields("azure") == ["customData"] && HiddenFields("generic") == ["sshKey"]
    ensures HiddenFields("vultr") == ["userdata"] && HiddenFields("virtualbox") == []
  {
  }

  function FieldNames(flags: seq<Flag>): seq<CamelResult> {
    seq(|flags|, i requires 0 <= i < |flags| => CamelField(flags[i].name))
  }

  /** names[k] is the last of the first n names that is this field. */
  predicate Decides(names: seq<CamelResult>, n: nat, k: int, field: string)
    requires n <= |names|
  {
    0 <= k < n && names[k] == Field(field) && forall j :: k < j < n ==> names[j] != Field(field)
  }

  /** fields has one field for every name among the first n, with the type of the last
      flag of that name. */
  ghost predicate Collects(flags: seq<Flag>, names: seq<CamelResult>, n: nat, fields: map<string, FieldType>)
    requires n <= |names| == |flags|
  {
    && (forall k :: 0 <= k < n ==> names[k].Field? && flags[k].kind != UnknownFlag)
    && (forall f :: f in fields ==> exists k :: 0 <= k < n && names[k] == Field(f))
    && (forall k :: 0 <= k < n ==> names[k].name in fields)
    && (forall f, k :: f in fields && Decides(names, n, k, f) ==> fields[f] == TypeOf(flags[k].kind))
  }

  lemma CollectsNext(flags: seq<Flag>, names: seq<CamelResult>, n: nat, fields: map<string, FieldType>)
    requires n < |names| == |flags| && Collects(flags, names, n, fields)
    requires names[n].Field? && flags[n].kind != UnknownFlag
    ensures Collects(flags, names, n + 1, fields[names[n].name := TypeOf(flags[n].kind)])
  {
  }

  /** The k-th flag is the first that has no field, and this is how it fails: its name is
      looked at before its kind, and an empty later part of the name panics. */
  ghost predicate FailsFirst(flags: seq<Flag>, names: seq<CamelResult>, k: nat, r: SchemaResult)
    requires |names| == |flags|
  {
    && k < |flags| && (forall j :: 0 <= j < k ==> names[j].Field? && flags[j].kind != UnknownFlag)
    && match names[k]
       case Panics => r == SchemaPanic
       case NotAFlag => r == SchemaError
       case Field(_) => flags[k].kind == UnknownFlag && r == SchemaError
  }

  /** The first loop of GenerateAndUploadSchema. */
  method CollectFields(flags: seq<Flag>) returns (r: SchemaResult)
    ensures r.Schema? ==> Collects(flags, FieldNames(flags), |flags|, r.fields)
    ensures !r.Schema? ==> exists k: nat :: FailsFirst(flags, FieldNames(flags), k, r)
  {
    hide CamelField;
    var fields: map<string, FieldType> := map[];
    ghost var names := FieldNames(flags);
    var i := 0;
    while i < |flags|
      invariant 0 <= i <= |flags| && Collects(flags, names, i, fields)
    {
      var name := ToLowerCamelCase(flags[i].name);
      assert names[i] == name;
      if name.Panics? {
        assert FailsFirst(flags, names, i, SchemaPanic);
        return SchemaPanic;
      }
      if name.NotAFlag? || flags[i].kind == UnknownFlag {
        assert FailsFirst(flags, names, i, SchemaError);
        return SchemaError;
      }
      CollectsNext(flags, names, i, fields);
      fields := fields[name.name := TypeOf(flags[i].kind)];
      i := i + 1;
    }
    return Schema(fields);
  }

  /** The second loop: the hidden fields are taken out again. */
  method HideFields(driver: string, all: map<string, FieldType>) returns (fields: map<string, FieldType>)
    ensures fields == map f | f in all && f !in HiddenFields(driver) :: all[f]
  {
    var hidden := HiddenFields(driver);
    fields := all;
    var i := 0;
    while i < |hidden|
      invariant 0 <= i <= |hidden|
      invariant fields == map f | f in all && f !in hidden[..i] :: all[f]
    {
      assert forall f :: f in hidden[..i + 1] <==> f in hidden[..i] || f == hidden[i];
      fields := fields - {hidden[i]};
      i := i + 1;
    }
    assert hidden[..i] == hidden;
  }

  /** Flags of one driver, each with its parts, all reversible and no two the same. */
  ghost predicate ReversibleFlags(driver: string, flags: seq<Flag>, parts: seq<seq<string>>) {
    && '-' !in driver && |parts| == |flags|
    && (forall i :: 0 <= i < |flags| ==>
          PlainParts(parts[i]) && Reversible(parts[i]) && flags[i].name == FlagOf(driver, parts[i]))
    && (forall i, j :: 0 <= i < j < |flags| ==> flags[i].name != flags[j].name)
  }

  lemma NameOf(driver: string, flags: seq<Flag>, parts: seq<seq<string>>, j: nat)
    requires ReversibleFlags(driver, flags, parts) && j < |flags|
    ensures FieldNames(flags)[j] == Field(Camel(parts[j]))
  {
    FlagRoundTrip(driver, parts[j]);
  }

  lemma NamesDiffer(driver: string, flags: seq<Flag>, parts: seq<seq<string>>, i: nat, j: nat)
    requires ReversibleFlags(driver, flags, parts) && i < j < |flags|
    ensures FieldNames(flags)[i] != FieldNames(flags)[j]
  {
    NameOf(driver, flags, parts, i);
    NameOf(driver, flags, parts, j);
    if Camel(parts[i]) == Camel(parts[j]) {
      FieldsDoNotCollide(driver, parts[i], parts[j]);
    }
  }

  /** On reversible flags of one driver nothing is lost on the way into the schema: the
      flags' distinct names are distinct fields, and each field has its own flag's type. */
  lemma SchemaKeepsEveryFlag(driver: string, flags: seq<Flag>, parts: seq<seq<string>>,
                             fields: map<string, FieldType>, k: nat)
    requires ReversibleFlags(driver, flags, parts) && k < |flags|
    requires Collects(flags, FieldNames(flags), |flags|, fields)
    ensures Camel(parts[k]) in fields
    ensures var kind := flags[k].kind;
            fields[Camel(parts[k])] ==
            if kind == BoolFlag then BooleanType else if kind == StringSliceFlag then ArrayType else StringType
  {
    NameOf(driver, flags, parts, k);
    var names := FieldNames(flags);
    forall j | k < j < |flags| ensures names[j] != names[k] { NamesDiffer(driver, flags, parts, k, j); }
    assert names[k].name in fields;
    assert Decides(names, |flags|, k, names[k].name);
  }
}
