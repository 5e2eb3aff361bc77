/** The docker-machine command line of a create (handlers/create.go), and reading the
    configuration back from it. */
module CreateCommand {
  import opened Options
  import opened Text
  import opened Orders
  import opened UnixPath
  import opened FlagNaming

  /** A value of the driver's configuration as the type switch sees it; Rendered is a
      list of anything, printed with %v. */
  datatype Value =
    Bool(b: bool) | Text(s: string) | Texts(list: seq<string>) | Rendered(items: seq<string>) | Nil | Unsupported

  datatype Host = Host(
    driver: string, name: string, installUrl: string, storageDriver: string,
    opt: map<string, string>, env: map<string, string>, labels: map<string, string>,
    insecureRegistry: seq<string>, registryMirror: seq<string>,
    config: Option<map<string, Value>>)

  /** The order in which a map happens to be iterated: every key once. */
  ghost predicate IterationOf(order: seq<string>, keys: set<string>) {
    && (forall k :: k in order <==> k in keys)
    && forall i, j :: 0 <= i < j < |order| ==> order[i] != order[j]
  }

  datatype Iterations = Iterations(opt: seq<string>, env: seq<string>, labels: seq<string>, config: seq<string>)

  ghost predicate Iterates(it: Iterations, h: Host) {
    && IterationOf(it.opt, h.opt.Keys) && IterationOf(it.env, h.env.Keys) && IterationOf(it.labels, h.labels.Keys)
    && (h.config.Some? ==> IterationOf(it.config, h.config.value.Keys))
  }

  // ----- what the command line is made of

  datatype Target = Engine(flag: string) | Config(field: string)

  /** A flag with the values given to it. */
  datatype Item = Item(target: Target, flag: string, value: Value)

  function Repeated(flag: string, values: seq<string>): seq<string> {
    if values == [] then [] else Repeated(flag, values[..|values| - 1]) + [flag, Last(values)]
  }

  function ItemArgs(i: Item): seq<string> {
    match i.value
    case Bool(b) => if b then [i.flag] else []
    case Text(s) => if s != "" then [i.flag, s] else []
    case Texts(list) => Repeated(i.flag, list)
    case Rendered(items) => Repeated(i.flag, items)
    case _ => []
  }

  function Args(items: seq<Item>): seq<string> {
    if items == [] then [] else Args(items[..|items| - 1]) + ItemArgs(Last(items))
  }

  function WithoutEmpty(values: seq<string>): seq<string> {
    if values == [] then []
    else WithoutEmpty(values[..|values| - 1]) + if Last(values) == "" then [] else [Last(values)]
  }

  function Pairs(m: map<string, string>, order: seq<string>): seq<string>
    requires forall k :: k in order ==> k in m
  {
    seq(|order|, i requires 0 <= i < |order| => order[i] + "=" + m[order[i]])
  }

  const ENGINE_FLAGS := ["--engine-install-url", "--engine-opt", "--engine-env", "--engine-insecure-registry",
                         "--engine-label", "--engine-registry-mirror", "--engine-storage-driver"]

  function EngineItem(flag: string, values: seq<string>): Item { Item(Engine(flag), flag, Texts(WithoutEmpty(values))) }

  function EngineItems(h: Host, it: Iterations): seq<Item>
    requires Iterates(it, h)
  {
    [ Item(Engine(ENGINE_FLAGS[0]), ENGINE_FLAGS[0], Text(h.installUrl)),
      EngineItem(ENGINE_FLAGS[1], Pairs(h.opt, it.opt)),
      EngineItem(ENGINE_FLAGS[2], Pairs(h.env, it.env)),
      EngineItem(ENGINE_FLAGS[3], h.insecureRegistry),
      EngineItem(ENGINE_FLAGS[4], Pairs(h.labels, it.labels)),
      EngineItem(ENGINE_FLAGS[5], h.registryMirror),
      Item(Engine(ENGINE_FLAGS[6]), ENGINE_FLAGS[6], Text(h.storageDriver)) ]
  }

  /** The fields in sorted order. */
  function Fields(config: map<string, Value>): (s: seq<string>)
    ensures Ascending(StringLess, s) && forall k :: k in s <==> k in config
  {
    StringLessIsStrictTotal();
    Listing(StringLess, config.Keys)
  }

  /** The field "Resource" is passed over. */
  function ConfigItem(driver: string, config: map<string, Value>, field: string): Item
    requires field in config
  {
    Item(Config(field), CreateFlag(driver, field), if field == "Resource" then Nil else config[field])
  }

  function ConfigItems(driver: string, config: map<string, Value>, fields: seq<string>): seq<Item>
    requires forall k :: k in fields ==> k in config
  {
    seq(|fields|, i requires 0 <= i < |fields| => ConfigItem(driver, config, fields[i]))
  }

  predicate Supported(config: map<string, Value>) {
    forall k :: k in config && k != "Resource" ==> !config[k].Unsupported?
  }

  /** The command line, or nothing if there is no configuration for the driver or a value
      of an unsupported type in it. Its last part does not depend on the iteration. */
  function CommandLine(h: Host, it: Iterations): Option<seq<string>>
    requires Iterates(it, h)
  {
    if h.config.None? || !Supported(h.config.value) then None
    else Some(["create", "-d", ToLower(h.driver)] + Args(EngineItems(h, it))
              + Args(ConfigItems(h.driver, h.config.value, Fields(h.config.value))) + [h.name])
  }

  lemma ArgsSnoc(items: seq<Item>, i: Item)
    ensures Args(items + [i]) == Args(items) + ItemArgs(i)
  {
  }

  lemma RepeatedSnoc(flag: string, values: seq<string>, v: string)
    ensures Repeated(flag, values + [v]) == Repeated(flag, values) + [flag, v]
  {
  }

  /** mapToSlice. */
  method MapToSlice(m: map<string, string>, order: seq<string>) returns (ret: seq<string>)
    requires IterationOf(order, m.Keys)
    ensures ret == Pairs(m, order)
  {
    ret := [];
    var i := 0;
    while i < |order|
      invariant 0 <= i <= |order|
      invariant |ret| == i && forall j :: 0 <= j < i ==> ret[j] == Pairs(m, order)[j]
    {
      assert order[i] in order;
      ret := ret + [order[i] + "=" + m[order[i]]];
      i := i + 1;
    }
  }

  lemma {:induction false} WithoutEmptyConcat(a: seq<string>, b: seq<string>)
    ensures WithoutEmpty(a + b) == WithoutEmpty(a) + WithoutEmpty(b)
    decreases |b|
  {
    if b == [] {
      assert a + b == a;
    } else {
      var n := |b| - 1;
      assert (a + b)[..|a + b| - 1] == a + b[..n] && Last(a + b) == b[n];
      WithoutEmptyConcat(a, b[..n]);
    }
  }

  /** The list without its empty values, the others in their order. */
  lemma {:induction false} WithoutEmptyExactly(values: seq<string>)
    ensures "" !in WithoutEmpty(values)
    ensures forall v :: v != "" ==> multiset(WithoutEmpty(values))[v] == multiset(values)[v]
    ensures "" !in values ==> WithoutEmpty(values) == values
  {
    if values != [] {
      var init := values[..|values| - 1];
      assert values == init + [Last(values)] && Last(values) in values;
      WithoutEmptyExactly(init);
    }
  }

  lemma WithoutEmptyNext(values: seq<string>, i: nat)
    requires i < |values|
    ensures WithoutEmpty(values[..i + 1]) ==
            if values[i] == "" then WithoutEmpty(values[..i]) else WithoutEmpty(values[..i]) + [values[i]]
  {
    assert values[..i + 1][..i] == values[..i];
  }

  /** buildEngineOpts. */
  method BuildEngineOpts(name: string, values: seq<string>) returns (opts: seq<string>)
    ensures opts == ItemArgs(EngineItem(name, values))
  {
    opts := [];
    var i := 0;
    while i < |values|
      invariant 0 <= i <= |values|
      invariant opts == Repeated(name, WithoutEmpty(values[..i]))
    {
      hide WithoutEmpty, Repeated;
      WithoutEmptyNext(values, i);
      if values[i] != "" {
        RepeatedSnoc(name, WithoutEmpty(values[..i]), values[i]);
        opts := opts + [name, values[i]];
      }
      i := i + 1;
    }
    assert values[..i] == values;
  }

  method AppendEach(cmd: seq<string>, flag: string, values: seq<string>) returns (r: seq<string>)
    ensures r == cmd + Repeated(flag, values)
  {
    r := cmd;
    var i := 0;
    while i < |values|
      invariant 0 <= i <= |values|
      invariant r == cmd + Repeated(flag, values[..i])
    {
      assert values[..i + 1] == values[..i] + [values[i]];
      RepeatedSnoc(flag, values[..i], values[i]);
      r := r + [flag, values[i]];
      i := i + 1;
    }
    assert values[..i] == values;
  }

  lemma ArgsPrefix(items: seq<Item>, k: nat)
    requires k < |items|
    ensures Args(items[..k + 1]) == Args(items[..k]) + ItemArgs(items[k])
  {
    assert items[..k + 1][..k] == items[..k];
  }

  /** cmd = append(cmd, buildEngineOpts(name, values)...), for the k-th kind of option. */
  method AppendOption(cmd: seq<string>, name: string, values: seq<string>,
                      ghost start: seq<string>, ghost items: seq<Item>, ghost k: nat) returns (r: seq<string>)
    requires k < |items| && ItemArgs(items[k]) == ItemArgs(EngineItem(name, values)) && cmd == start + Args(items[..k])
    ensures r == start + Args(items[..k + 1])
  {
    ArgsPrefix(items, k);
    var opts := BuildEngineOpts(name, values);
    r := cmd + opts;
  }

  /** One value given as a list of one is the value itself. */
  lemma SingleValue(flag: string, s: string)
    ensures ItemArgs(EngineItem(flag, [s])) == ItemArgs(Item(Engine(flag), flag, Text(s)))
  {
    assert [s][..0] == [] && WithoutEmpty([]) == [];
    if s != "" {
      assert WithoutEmpty([s]) == [s] && Repeated(flag, []) == [];
    }
  }

  lemma EngineItemsOneByOne(h: Host, it: Iterations)
    requires Iterates(it, h)
    ensures var items := EngineItems(h, it);
            && |items| == |ENGINE_FLAGS| == 7
            && ItemArgs(items[0]) == ItemArgs(EngineItem(ENGINE_FLAGS[0], [h.installUrl]))
            && items[1] == EngineItem(ENGINE_FLAGS[1], Pairs(h.opt, it.opt))
            && items[2] == EngineItem(ENGINE_FLAGS[2], Pairs(h.env, it.env))
            && items[3] == EngineItem(ENGINE_FLAGS[3], h.insecureRegistry)
            && items[4] == EngineItem(ENGINE_FLAGS[4], Pairs(h.labels, it.labels))
            && items[5] == EngineItem(ENGINE_FLAGS[5], h.registryMirror)
            && ItemArgs(items[6]) == ItemArgs(EngineItem(ENGINE_FLAGS[6], [h.storageDriver]))
  {
    assert |ENGINE_FLAGS| == 7;
    hide ENGINE_FLAGS, ItemArgs, EngineItem, Pairs;
    SingleValue(ENGINE_FLAGS[0], h.installUrl);
    SingleValue(ENGINE_FLAGS[6], h.storageDriver);
  }

  /** The engine options of buildMachineCreateCmd, appended one kind after the other. */
  method AppendEngine(h: Host, it: Iterations, cmd: seq<string>) returns (r: seq<string>)
    requires Iterates(it, h)
    ensures r == cmd + Args(EngineItems(h, it))
  {
    var opt := MapToSlice(h.opt, it.opt);
    var env := MapToSlice(h.env, it.env);
    var labels := MapToSlice(h.labels, it.labels);
    ghost var items := EngineItems(h, it);
    EngineItemsOneByOne(h, it);
    hide ENGINE_FLAGS, EngineItems, EngineItem, ItemArgs, Pairs;
    assert items[..0] == [] && cmd + [] == cmd;
    r := AppendOption(cmd, ENGINE_FLAGS[0], [h.installUrl], cmd, items, 0);
    r := AppendOption(r, ENGINE_FLAGS[1], opt, cmd, items, 1);
    r := AppendOption(r, ENGINE_FLAGS[2], env, cmd, items, 2);
    r := AppendOption(r, ENGINE_FLAGS[3], h.insecureRegistry, cmd, items, 3);
    r := AppendOption(r, ENGINE_FLAGS[4], labels, cmd, items, 4);
    r := AppendOption(r, ENGINE_FLAGS[5], h.registryMirror, cmd, items, 5);
    r := AppendOption(r, ENGINE_FLAGS[6], [h.storageDriver], cmd, items, 6);
    assert items[..7] == items;
  }

  /** The body of the loop over the fields. */
  method AppendField(cmd: seq<string>, flag: string, field: string, value: Value) returns (r: seq<string>)
    requires !value.Unsupported?
    ensures r == cmd + ItemArgs(Item(Config(field), flag, value))
  {
    r := cmd;
    match value
    case Bool(b) =>
      if b {
        r := r + [flag];
      }
    case Text(s) =>
      if s != "" {
        r := r + [flag, s];
      }
    case Texts(list) => r := AppendEach(r, flag, list);
    case Rendered(items) => r := AppendEach(r, flag, items);
    case _ =>
  }

  /** The first i fields are supported and on the command line. */
  ghost predicate Appended(driver: string, config: map<string, Value>, fields: seq<string>, i: nat,
                           cmd: seq<string>, r: seq<string>)
    requires i <= |fields| && forall k :: k in fields ==> k in config
  {
    && (forall j :: 0 <= j < i && fields[j] != "Resource" ==> !config[fields[j]].Unsupported?)
    && r == cmd + Args(ConfigItems(driver, config, fields[..i]))
  }

  lemma NextField(driver: string, config: map<string, Value>, fields: seq<string>, i: nat,
                  cmd: seq<string>, r: seq<string>)
    requires i < |fields| && forall k :: k in fields ==> k in config
    requires Appended(driver, config, fields, i, cmd, r)
    requires fields[i] != "Resource" ==> !config[fields[i]].Unsupported?
    ensures Appended(driver, config, fields, i + 1, cmd, r + ItemArgs(ConfigItem(driver, config, fields[i])))
  {
    var items, item := ConfigItems(driver, config, fields[..i]), ConfigItem(driver, config, fields[i]);
    assert ConfigItems(driver, config, fields[..i + 1]) == items + [item];
    ArgsSnoc(items, item);
  }

  /** The keys are collected in any order and sorted. */
  method SortedFields(config: map<string, Value>, order: seq<string>) returns (fields: seq<string>)
    requires IterationOf(order, config.Keys)
    ensures fields == Fields(config)
  {
    StringLessIsStrictTotal();
    fields := Listing(StringLess, set k | k in order);
    AscendingUnique(StringLess, fields, Fields(config));
  }

  lemma AllAppended(driver: string, config: map<string, Value>, cmd: seq<string>, r: seq<string>)
    requires Appended(driver, config, Fields(config), |Fields(config)|, cmd, r)
    ensures Supported(config) && r == cmd + Args(ConfigItems(driver, config, Fields(config)))
  {
    var fields := Fields(config);
    assert fields[..|fields|] == fields;
    forall k | k in config && k != "Resource" ensures !config[k].Unsupported? {
      assert k in fields;
    }
  }

  /** The loop over the sorted fields. */
  method AppendConfig(driver: string, config: map<string, Value>, order: seq<string>, cmd: seq<string>)
    returns (ok: bool, r: seq<string>)
    requires IterationOf(order, config.Keys)
    ensures ok <==> Supported(config)
    ensures ok ==> r == cmd + Args(ConfigItems(driver, config, Fields(config)))
  {
    hide Fields, CreateFlag;
    var configFields := SortedFields(config, order);
    r := cmd;
    var i := 0;
    while i < |configFields|
      invariant 0 <= i <= |configFields| && Appended(driver, config, configFields, i, cmd, r)
    {
      hide Appended;
      var field := configFields[i];
      assert field in configFields;
      if field != "Resource" && config[field].Unsupported? {
        return false, r;
      }
      NextField(driver, config, configFields, i, cmd, r);
      ghost var args := ItemArgs(ConfigItem(driver, config, field));
      if field != "Resource" {
        r := AppendField(r, CreateFlag(driver, field), field, config[field]);
      } else {
        assert args == [] && r + args == r;
      }
      i := i + 1;
    }
    AllAppended(driver, config, cmd, r);
    return true, r;
  }

  /** buildMachineCreateCmd, in whatever order the maps are iterated. */
  method BuildMachineCreateCmd(h: Host, it: Iterations) returns (cmd: Option<seq<string>>)
    requires Iterates(it, h)
    ensures cmd == CommandLine(h, it)
  {
    var args := ["create", "-d", ToLower(h.driver)];
    args := AppendEngine(h, it, args);
    if h.config.None? {
      return None;
    }
    var ok;
    ok, args := AppendConfig(h.driver, h.config.value, it.config, args);
    if !ok {
      return None;
    }
    return Some(args + [h.name]);
  }

  /** Where the parts of the command line are, and when there is none: without a
      configuration for the driver, or with a value of an unsupported type in it. */
  lemma CommandLineShape(h: Host, it: Iterations)
    requires Iterates(it, h)
    ensures CommandLine(h, it).None? <==>
            h.config.None? || exists k :: k in h.config.value && k != "Resource" && h.config.value[k].Unsupported?
    ensures CommandLine(h, it).Some? ==>
              var argv := CommandLine(h, it).value;
              |argv| >= 4 && argv[..3] == ["create", "-d", ToLower(h.driver)] && argv[|argv| - 1] == h.name
  {
    hide EngineItems, Fields, Args;
  }

  // ----- reading the command line

  /** How many values a flag takes: none, one, or one each time it is repeated. */
  datatype Arity = Switch | Single | Many
  datatype Meaning = Meaning(target: Target, arity: Arity)
  datatype Setting = On | One(s: string) | Several(list: seq<string>)

  /** Reads flags one after the other, each with as many values as the table says. */
  function Decode(table: map<string, Meaning>, args: seq<string>, acc: map<Target, Setting>)
    : Option<map<Target, Setting>>
    decreases |args|
  {
    if args == [] then Some(acc)
    else if args[0] !in table then None
    else
      var m := table[args[0]];
      if m.arity.Switch? then Decode(table, args[1..], acc[m.target := On])
      else if |args| < 2 then None
      else if m.arity.Single? then Decode(table, args[2..], acc[m.target := One(args[1])])
      else
        var before := if m.target in acc && acc[m.target].Several? then acc[m.target].list else [];
        Decode(table, args[2..], acc[m.target := Several(before + [args[1]])])
  }

  /** What a value says to the driver: false, empty, nil and empty lists say nothing. */
  function SettingOf(v: Value): Option<Setting> {
    match v
    case Bool(b) => if b then Some(On) else None
    case Text(s) => if s != "" then Some(One(s)) else None
    case Texts(list) => if list != [] then Some(Several(list)) else None
    case Rendered(items) => if items != [] then Some(Several(items)) else None
    case _ => None
  }

  predicate ArityFits(v: Value, a: Arity) {
    match v
    case Bool(_) => a.Switch?
    case Text(_) => a.Single?
    case Texts(_) => a.Many?
    case Rendered(_) => a.Many?
    case _ => true
  }

  /** The table knows the flag of every item that has something to say. */
  predicate Knows(table: map<string, Meaning>, i: Item) {
    SettingOf(i.value).Some? ==>
      i.flag in table && table[i.flag].target == i.target && ArityFits(i.value, table[i.flag].arity)
  }

  function Settings(items: seq<Item>): map<Target, Setting> {
    if items == [] then map[]
    else
      var before := Settings(items[..|items| - 1]);
      var setting := SettingOf(Last(items).value);
      if setting.Some? then before[Last(items).target := setting.value] else before
  }

  predicate DistinctTargets(items: seq<Item>) {
    forall i, j :: 0 <= i < j < |items| ==> items[i].target != items[j].target
  }

  lemma {:induction false} DecodeRepeated(table: map<string, Meaning>, flag: string, values: seq<string>,
                                         rest: seq<string>, acc: map<Target, Setting>)
    requires flag in table && table[flag].arity.Many? && table[flag].target !in acc && values != []
    ensures Decode(table, Repeated(flag, values) + rest, acc)
            == Decode(table, rest, acc[table[flag].target := Several(values)])
    decreases |values|
  {
    var n := |values| - 1;
    var v := values[n];
    var tail := [flag, v] + rest;
    assert tail[0] == flag && tail[1] == v && tail[2..] == rest;
    if n == 0 {
      assert Repeated(flag, values) + rest == tail;
      assert [] + [v] == values;
    } else {
      DecodeRepeated(table, flag, values[..n], tail, acc);
      assert Repeated(flag, values) + rest == Repeated(flag, values[..n]) + tail;
      var t := table[flag].target;
      assert values[..n] + [v] == values;
      assert acc[t := Several(values[..n])][t := Several(values)] == acc[t := Several(values)];
    }
  }

  lemma DecodeItem(table: map<string, Meaning>, i: Item, rest: seq<string>, acc: map<Target, Setting>)
    requires Knows(table, i) && i.target !in acc
    ensures Decode(table, ItemArgs(i) + rest, acc) ==
            var setting := SettingOf(i.value);
            Decode(table, rest, if setting.Some? then acc[i.target := setting.value] else acc)
  {
    var args := ItemArgs(i) + rest;
    match i.value
    case Bool(b) => if b { assert args[0] == i.flag && args[1..] == rest; } else { assert args == rest; }
    case Text(s) =>
      if s != "" {
        assert args[0] == i.flag && args[1] == s && args[2..] == rest;
      } else {
        assert args == rest;
      }
    case Texts(list) => if list != [] { DecodeRepeated(table, i.flag, list, rest, acc); } else { assert args == rest; }
    case Rendered(items) =>
      if items != [] {
        DecodeRepeated(table, i.flag, items, rest, acc);
      } else {
        assert args == rest;
      }
    case _ => assert args == rest;
  }

  lemma LastIsNew(items: seq<Item>)
    requires items != [] && DistinctTargets(items)
    ensures Last(items).target !in Settings(items[..|items| - 1])
  {
    var init := items[..|items| - 1];
    SettingTargets(init);
    forall x | x in init ensures x.target != Last(items).target {
      var k :| 0 <= k < |init| && init[k] == x;
      assert items[k] == x;
    }
  }

  /** Whatever follows, the items are read back as their settings. */
  lemma {:induction false} DecodeItems(table: map<string, Meaning>, items: seq<Item>, rest: seq<string>)
    requires DistinctTargets(items) && forall i :: i in items ==> Knows(table, i)
    ensures Decode(table, Args(items) + rest, map[]) == Decode(table, rest, Settings(items))
  {
    if items == [] {
      assert Args(items) + rest == rest;
    } else {
      hide Args, Decode, ItemArgs, SettingOf, Knows;
      var init, i := items[..|items| - 1], Last(items);
      assert i in items && forall x :: x in init ==> x in items;
      DecodeItems(table, init, ItemArgs(i) + rest);
      assert items == init + [i];
      ArgsSnoc(init, i);
      Associative(Args(init), ItemArgs(i), rest);
      LastIsNew(items);
      DecodeItem(table, i, rest, Settings(init));
    }
  }

  /** The settings of distinct items, item by item. */
  lemma {:induction false} SettingsMeaning(items: seq<Item>, i: Item)
    requires DistinctTargets(items) && i in items
    ensures i.target in Settings(items) <==> SettingOf(i.value).Some?
    ensures i.target in Settings(items) ==> Settings(items)[i.target] == SettingOf(i.value).value
  {
    var init, last := items[..|items| - 1], Last(items);
    if i in init {
      var k :| 0 <= k < |init| && init[k] == i;
      assert items[k].target != items[|items| - 1].target;
      SettingsMeaning(init, i);
    } else {
      LastIsNew(items);
    }
  }

  lemma {:induction false} SettingTargets(items: seq<Item>)
    ensures forall t :: t in Settings(items) ==> exists i :: i in items && i.target == t
  {
    if items != [] {
      SettingTargets(items[..|items| - 1]);
      assert forall x :: x in items[..|items| - 1] || x == Last(items) ==> x in items;
    }
  }

  // ----- the whole command line

  datatype ReadBack = ReadBack(driver: string, settings: map<Target, Setting>, name: string)

  function ReadCommand(table: map<string, Meaning>, argv: seq<string>): Option<ReadBack> {
    if |argv| < 4 || argv[0] != "create" || argv[1] != "-d" then None
    else
      var settings := Decode(table, argv[3..|argv| - 1], map[]);
      if settings.None? then None else Some(ReadBack(argv[2], settings.value, Last(argv)))
  }

  /** The engine's install URL and storage driver are given once, its other options may be
      repeated. */
  function EngineArity(n: nat): Arity { if n == 0 || n == 6 then Single else Many }

  predicate KnowsAs(table: map<string, Meaning>, flag: string, arity: Arity) {
    flag in table && table[flag] == Meaning(Engine(flag), arity)
  }

  predicate KnowsEngine(table: map<string, Meaning>) {
    && KnowsAs(table, "--engine-install-url", Single) && KnowsAs(table, "--engine-storage-driver", Single)
    && KnowsAs(table, "--engine-opt", Many) && KnowsAs(table, "--engine-env", Many)
    && KnowsAs(table, "--engine-label", Many) && KnowsAs(table, "--engine-insecure-registry", Many)
    && KnowsAs(table, "--engine-registry-mirror", Many)
  }

  lemma KnowsEachFlag(table: map<string, Meaning>, n: nat)
    requires KnowsEngine(table) && n < |ENGINE_FLAGS|
    ensures KnowsAs(table, ENGINE_FLAGS[n], EngineArity(n))
  {
  }

  /** The table knows the engine flags, and the driver's flag of every configured field. */
  ghost predicate Covers(table: map<string, Meaning>, h: Host) {
    && KnowsEngine(table)
    && (h.config.Some? ==> forall k :: k in h.config.value ==> Knows(table, ConfigItem(h.driver, h.config.value, k)))
  }

  lemma EngineItemsShape(h: Host, it: Iterations)
    requires Iterates(it, h)
    ensures var items := EngineItems(h, it);
            && |items| == |ENGINE_FLAGS| == 7
            && (forall j :: 0 <= j < 7 ==>
                  && items[j].flag == ENGINE_FLAGS[j] && items[j].target == Engine(ENGINE_FLAGS[j])
                  && ArityFits(items[j].value, EngineArity(j)))
            && forall i, j :: 0 <= i < j < 7 ==> ENGINE_FLAGS[i] != ENGINE_FLAGS[j]
  {
  }

  function AllItems(h: Host, it: Iterations): seq<Item>
    requires Iterates(it, h) && h.config.Some?
  {
    EngineItems(h, it) + ConfigItems(h.driver, h.config.value, Fields(h.config.value))
  }

  lemma FieldsDiffer(config: map<string, Value>, i: nat, j: nat)
    requires i < j < |Fields(config)|
    ensures Fields(config)[i] != Fields(config)[j]
  {
    StringLessIsStrictTotal();
    assert StringLess(Fields(config)[i], Fields(config)[j]);
  }

  lemma AllItemsAreDistinct(h: Host, it: Iterations)
    requires Iterates(it, h) && h.config.Some?
    ensures DistinctTargets(AllItems(h, it))
  {
    hide EngineItems, Fields, CreateFlag, ENGINE_FLAGS, Iterates, IterationOf;
    EngineItemsShape(h, it);
    var items, fields := AllItems(h, it), Fields(h.config.value);
    forall i, j | 0 <= i < j < |items| ensures items[i].target != items[j].target {
      if i >= 7 {
        FieldsDiffer(h.config.value, i - 7, j - 7);
        assert items[i].target == Config(fields[i - 7]) && items[j].target == Config(fields[j - 7]);
      } else if j >= 7 {
        assert items[j].target.Config? && items[i].target.Engine?;
      }
    }
  }

  lemma AllItemsAreKnown(table: map<string, Meaning>, h: Host, it: Iterations, i: Item)
    requires Iterates(it, h) && h.config.Some? && Covers(table, h) && i in AllItems(h, it)
    ensures Knows(table, i)
  {
    EngineItemsShape(h, it);
    if i in EngineItems(h, it) {
      var n :| 0 <= n < |EngineItems(h, it)| && EngineItems(h, it)[n] == i;
      KnowsEachFlag(table, n);
    }
    hide EngineItems, ENGINE_FLAGS, KnowsEngine, EngineArity, Fields, CreateFlag;
  }

  lemma {:induction false} ArgsConcat(a: seq<Item>, b: seq<Item>)
    ensures Args(a + b) == Args(a) + Args(b)
    decreases |b|
  {
    if b == [] {
      assert a + b == a;
    } else {
      hide Args, ItemArgs;
      var init, i := b[..|b| - 1], Last(b);
      assert b == init + [i] && a + (init + [i]) == (a + init) + [i];
      ArgsConcat(a, init);
      ArgsSnoc(a + init, i);
      ArgsSnoc(init, i);
      Associative(Args(a), Args(init), ItemArgs(i));
    }
  }

  /** The command line is read back as what was put into it: the driver, the settings of
      every item, and the name. */
  lemma CommandLineReadsBack(table: map<string, Meaning>, h: Host, it: Iterations)
    requires Iterates(it, h) && CommandLine(h, it).Some? && Covers(table, h)
    ensures ReadCommand(table, CommandLine(h, it).value)
            == Some(ReadBack(ToLower(h.driver), Settings(AllItems(h, it)), h.name))
  {
    var items := AllItems(h, it);
    forall i | i in items ensures Knows(table, i) { AllItemsAreKnown(table, h, it, i); }
    AllItemsAreDistinct(h, it);
    DecodeItems(table, items, []);
    ArgsConcat(EngineItems(h, it), ConfigItems(h.driver, h.config.value, Fields(h.config.value)));
    MiddleOf(["create", "-d", ToLower(h.driver)], Args(EngineItems(h, it)),
             Args(ConfigItems(h.driver, h.config.value, Fields(h.config.value))), h.name);
    assert Args(items) + [] == Args(items);
  }

  lemma MiddleOf(head: seq<string>, a: seq<string>, b: seq<string>, last: string)
    requires |head| == 3
    ensures var argv := head + a + b + [last];
            && |argv| >= 4 && argv[3..|argv| - 1] == a + b && Last(argv) == last
            && argv[0] == head[0] && argv[1] == head[1] && argv[2] == head[2]
  {
  }

  lemma ItemOfField(h: Host, it: Iterations, k: string)
    requires Iterates(it, h) && h.config.Some? && k in h.config.value
    ensures ConfigItem(h.driver, h.config.value, k) in AllItems(h, it)
  {
    EngineItemsShape(h, it);
    var fields := Fields(h.config.value);
    assert k in fields;
    var j :| 0 <= j < |fields| && fields[j] == k;
    assert AllItems(h, it)[7 + j] == ConfigItem(h.driver, h.config.value, k);
  }

  lemma NoItemOfOthers(h: Host, it: Iterations, k: string)
    requires Iterates(it, h) && h.config.Some? && k !in h.config.value
    ensures forall i :: i in AllItems(h, it) ==> i.target != Config(k)
  {
  }

  /** The value says something, and this is how it is set: true as a switch, a text once,
      and a list value by value. */
  predicate SetAs(v: Value, s: Setting) {
    match v
    case Bool(b) => b && s == On
    case Text(t) => t != "" && s == One(t)
    case Texts(list) => list != [] && s == Several(list)
    case Rendered(items) => items != [] && s == Several(items)
    case _ => false
  }

  /** The setting of one configured field, if its item is among the items. */
  ghost predicate Told(config: map<string, Value>, s: map<Target, Setting>, k: string) {
    && (Config(k) in s <==> k in config && k != "Resource" && exists t :: SetAs(config[k], t))
    && (Config(k) in s ==> k in config && SetAs(config[k], s[Config(k)]))
  }

  lemma SettingExactly(v: Value, t: Setting)
    ensures SetAs(v, t) <==> SettingOf(v) == Some(t)
  {
  }

  lemma ToldByItem(items: seq<Item>, driver: string, config: map<string, Value>, k: string)
    requires DistinctTargets(items) && k in config && ConfigItem(driver, config, k) in items
    ensures Told(config, Settings(items), k)
  {
    var v := ConfigItem(driver, config, k).value;
    SettingsMeaning(items, ConfigItem(driver, config, k));
    forall t ensures SetAs(v, t) <==> SettingOf(v) == Some(t) { SettingExactly(v, t); }
    forall t ensures SetAs(config[k], t) <==> SettingOf(config[k]) == Some(t) { SettingExactly(config[k], t); }
    hide Settings, DistinctTargets, SettingOf, SetAs;
    assert SettingOf(v).Some? ==> SetAs(v, SettingOf(v).value);
    assert SettingOf(config[k]).Some? ==> SetAs(config[k], SettingOf(config[k]).value);
    assert k == "Resource" ==> SettingOf(v).None?;
  }

  lemma NotTold(items: seq<Item>, config: map<string, Value>, k: string)
    requires k !in config && forall i :: i in items ==> i.target != Config(k)
    ensures Told(config, Settings(items), k)
  {
  }

  /** What the driver is told: every configured field but "Resource", exactly if it says
      something, with its value; lists in their order. */
  lemma ConfigReachesDriver(h: Host, it: Iterations, k: string)
    requires Iterates(it, h) && h.config.Some?
    ensures Told(h.config.value, Settings(AllItems(h, it)), k)
  {
    AllItemsAreDistinct(h, it);
    if k in h.config.value {
      ItemOfField(h, it, k);
      ToldByItem(AllItems(h, it), h.driver, h.config.value, k);
    } else {
      NoItemOfOthers(h, it, k);
      NotTold(AllItems(h, it), h.config.value, k);
    }
  }

  function ListSays(list: seq<string>): Option<Setting> { if list == [] then None else Some(Several(list)) }
  function ValueSays(s: string): Option<Setting> { if s == "" then None else Some(One(s)) }

  /** The setting of an engine flag is what is to be said by it. */
  predicate Says(s: map<Target, Setting>, flag: string, says: Option<Setting>) {
    (Engine(flag) in s <==> says.Some?) && (says.Some? && Engine(flag) in s ==> s[Engine(flag)] == says.value)
  }

  lemma EngineOption(h: Host, it: Iterations, n: nat)
    requires Iterates(it, h) && h.config.Some? && n < 7
    ensures |EngineItems(h, it)| == |ENGINE_FLAGS| == 7
    ensures Says(Settings(AllItems(h, it)), ENGINE_FLAGS[n], SettingOf(EngineItems(h, it)[n].value))
  {
    AllItemsAreDistinct(h, it);
    EngineItemsShape(h, it);
    var items := AllItems(h, it);
    assert items[n] == EngineItems(h, it)[n];
    SettingsMeaning(items, items[n]);
    hide Settings, ENGINE_FLAGS, AllItems, DistinctTargets, EngineItems;
  }

  /** Each engine flag is set to what is to be said by it: single values once, and lists in
      their order without the empty ones; the maps as key=value texts. */
  lemma EngineOptionsArrive(h: Host, it: Iterations)
    requires Iterates(it, h) && h.config.Some?
    ensures var s := Settings(AllItems(h, it));
            && Says(s, "--engine-install-url", ValueSays(h.installUrl))
            && Says(s, "--engine-storage-driver", ValueSays(h.storageDriver))
            && Says(s, "--engine-opt", ListSays(WithoutEmpty(Pairs(h.opt, it.opt))))
            && Says(s, "--engine-env", ListSays(WithoutEmpty(Pairs(h.env, it.env))))
            && Says(s, "--engine-label", ListSays(WithoutEmpty(Pairs(h.labels, it.labels))))
            && Says(s, "--engine-insecure-registry", ListSays(WithoutEmpty(h.insecureRegistry)))
            && Says(s, "--engine-registry-mirror", ListSays(WithoutEmpty(h.registryMirror)))
  {
    hide Settings, AllItems, WithoutEmpty, Pairs, Says, Iterates;
    EngineOption(h, it, 0);
    EngineOption(h, it, 1);
    EngineOption(h, it, 2);
    EngineOption(h, it, 3);
    EngineOption(h, it, 4);
    EngineOption(h, it, 5);
    EngineOption(h, it, 6);
  }

  /** key=value texts as a map, later ones deciding. */
  function ParsePairs(list: seq<string>): map<string, string> {
    if list == [] then map[]
    else
      var cut := Cut(Last(list), '=');
      var before := ParsePairs(list[..|list| - 1]);
      if cut.1 then before[cut.0 := cut.2] else before
  }

  lemma {:induction false} ParsePrinted(m: map<string, string>, order: seq<string>)
    requires forall k :: k in order ==> k in m && '=' !in k
    ensures ParsePairs(WithoutEmpty(Pairs(m, order))) == map k | k in order :: m[k]
  {
    if order != [] {
      var init, k := order[..|order| - 1], Last(order);
      assert k in order && forall x :: x in order <==> x in init || x == k;
      ParsePrinted(m, init);
      var list, pair := Pairs(m, order), k + ['='] + m[k];
      assert list[..|list| - 1] == Pairs(m, init) && Last(list) == k + "=" + m[k] == pair;
      CutAround(k, '=', m[k]);
      var kept := WithoutEmpty(Pairs(m, init));
      assert WithoutEmpty(list) == kept + [pair];
      assert (kept + [pair])[..|kept|] == kept;
    }
  }

  /** An engine map is recovered whatever the iteration order, if no key contains "=". */
  lemma EngineMapRecovered(m: map<string, string>, order: seq<string>)
    requires IterationOf(order, m.Keys) && forall k :: k in m ==> '=' !in k
    ensures ParsePairs(WithoutEmpty(Pairs(m, order))) == m
  {
    ParsePrinted(m, order);
  }

  // ----- with the schema

  function ArityOf(kind: FlagKind): Arity {
    match kind
    case BoolFlag => Switch
    case StringSliceFlag => Many
    case _ => Single
  }

  /** A table of the driver's own flags covers every configuration over the schema fields
      made from them: what the user enters for a flag's field arrives under that flag. */
  lemma SchemaFlagsCover(table: map<string, Meaning>, h: Host, flags: seq<Flag>, parts: seq<seq<string>>)
    requires ReversibleFlags(h.driver, flags, parts) && ToLower(h.driver) == h.driver && h.config.Some?
    requires KnowsEngine(table)
    requires forall i :: 0 <= i < |flags| ==>
               var name := "--" + flags[i].name;
               name in table && table[name] == Meaning(Config(Camel(parts[i])), ArityOf(flags[i].kind))
    requires forall k :: k in h.config.value ==>
               exists i :: 0 <= i < |flags| && k == Camel(parts[i])
                           && ArityFits(h.config.value[k], ArityOf(flags[i].kind))
    ensures Covers(table, h)
  {
    forall k | k in h.config.value ensures Knows(table, ConfigItem(h.driver, h.config.value, k)) {
      var i :| 0 <= i < |flags| && k == Camel(parts[i]) && ArityFits(h.config.value[k], ArityOf(flags[i].kind));
      FlagRoundTrip(h.driver, parts[i]);
      assert CreateFlag(h.driver, k) == "--" + flags[i].name;
    }
  }
}
