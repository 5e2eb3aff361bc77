/** Reading connection arguments undoes their printing (handlers/bootstrap.go). */
module ConnectionRoundTrip {
  import opened Options
  import opened Text
  import opened ConnectionArgs

  // ----- what is printed

  /** An argument without its two hyphens, and the white space after it. */
  datatype Arg = Switch(name: string) | Setting(key: string, val: string, quoted: bool)
  datatype Item = Item(arg: Arg, gap: string)

  /** The arguments, with the one -H among them. */
  datatype Printed = Printed(
    lead: string, before: seq<Item>, endpoint: string, quoted: bool, gap: string, after: seq<Item>)

  function Quote(s: string, quoted: bool): string { if quoted then ['"'] + s + ['"'] else s }

  function Body(i: Item): string {
    (match i.arg
     case Switch(name) => name
     case Setting(key, val, quoted) => key + ['='] + Quote(val, quoted)) + i.gap
  }

  function Print(items: seq<Item>): string {
    if items == [] then "" else ['-', '-'] + Body(items[0]) + Print(items[1..])
  }

  function HostText(endpoint: string, quoted: bool): string { ['-', 'H', '='] + Quote(endpoint, quoted) }

  function PrintAll(p: Printed): string {
    p.lead + Print(p.before) + HostText(p.endpoint, p.quoted) + (p.gap + Print(p.after))
  }

  predicate IsGap(s: string) { forall c :: c in s ==> IsSpace(c) }

  predicate NoDoubleHyphen(s: string) { forall i :: 0 <= i < |s| - 1 ==> s[i] != '-' || s[i + 1] != '-' }

  /** No quote and no blank at either end. */
  predicate CleanEdges(s: string) {
    s != "" ==> !IsSpace(s[0]) && s[0] != '"' && !IsSpace(s[|s| - 1]) && s[|s| - 1] != '"'
  }

  predicate GoodArg(a: Arg) {
    match a
    case Switch(name) => '=' !in name && '-' !in name
    case Setting(key, val, _) =>
      && (key == "tlscacert" || key == "tlscert" || key == "tlskey")
      && '=' !in val && NoDoubleHyphen(val) && CleanEdges(val)
  }

  predicate GoodItem(i: Item) { GoodArg(i.arg) && IsGap(i.gap) }

  /** Good arguments, each followed by white space; the last one may end the text. */
  predicate GoodItems(items: seq<Item>) {
    && (forall i :: i in items ==> GoodItem(i))
    && forall k :: 0 <= k < |items| - 1 ==> items[k].gap != ""
  }

  predicate GoodPrinted(p: Printed) {
    && IsGap(p.lead) && IsGap(p.gap)
    && GoodItems(p.before) && (forall i :: i in p.before ==> i.gap != "") && GoodItems(p.after)
    && (p.after != [] ==> p.gap != "")
    && forall c :: c in p.endpoint ==> IsGraph(c) && c != '"' && c != '='
  }

  /** The value of the last setting with this key. */
  function Lookup(items: seq<Item>, key: string): string {
    if items == [] then ""
    else
      var last := items[|items| - 1].arg;
      if last.Setting? && last.key == key then last.val else Lookup(items[..|items| - 1], key)
  }

  // ----- the host argument is found and taken out

  /** No "H=" anywhere, so no match can begin inside. */
  predicate NoHost(s: string) { forall i :: 0 <= i < |s| - 1 ==> s[i] != 'H' || s[i + 1] != '=' }

  predicate EndsOpen(s: string) { s == "" || IsSpace(s[|s| - 1]) }

  lemma HostPrefix(s: string)
    ensures "-H=" <= s <==> |s| >= 3 && s[0] == '-' && s[1] == 'H' && s[2] == '='
  {
  }

  lemma {:induction false} GraphRunIs(x: string, b: string)
    requires (forall c :: c in x ==> IsGraph(c)) && (b != "" ==> !IsGraph(b[0]))
    ensures GraphRun(x + b) == |x|
  {
    if x == "" {
      assert x + b == b;
    } else {
      assert x[0] in x && (x + b)[1..] == x[1..] + b;
      GraphRunIs(x[1..], b);
    }
  }

  lemma {:induction false} NothingFound(s: string)
    requires NoHost(s)
    ensures FindHosts(s) == [] && WithoutHosts(s) == s
  {
    HostPrefix(s);
    if s != "" {
      NothingFound(s[1..]);
    }
  }

  lemma NoMatchHere(a: string, rest: string)
    requires a != "" && NoHost(a) && EndsOpen(a)
    ensures HostMatch(a + rest) == 0 && (a + rest)[0] == a[0] && (a + rest)[1..] == a[1..] + rest
  {
    var s := a + rest;
    HostPrefix(s);
    assert forall i :: 0 <= i < |a| ==> s[i] == a[i];
  }

  lemma HostNext(a: string, rest: string)
    requires a != "" && NoHost(a) && EndsOpen(a)
    ensures FindHosts(a + rest) == FindHosts(a[1..] + rest)
    ensures WithoutHosts(a + rest) == [a[0]] + WithoutHosts(a[1..] + rest)
    ensures NoHost(a[1..]) && EndsOpen(a[1..])
  {
    NoMatchHere(a, rest);
  }

  lemma HostFirst(m: string, b: string)
    requires NoHost(b) && (b != "" ==> !IsGraph(b[0]))
    requires "-H=" <= m && forall c :: c in m[3..] ==> IsGraph(c)
    ensures FindHosts(m + b) == [m] && WithoutHosts(m + b) == b
  {
    var s := m + b;
    HostPrefix(s);
    HostPrefix(m);
    assert s[3..] == m[3..] + b && s[..|m|] == m && s[|m|..] == b;
    GraphRunIs(m[3..], b);
    NothingFound(b);
  }

  lemma {:induction false} HostFound(a: string, m: string, b: string)
    requires NoHost(a) && EndsOpen(a) && NoHost(b) && (b != "" ==> !IsGraph(b[0]))
    requires "-H=" <= m && forall c :: c in m[3..] ==> IsGraph(c)
    ensures FindHosts(a + (m + b)) == [m] && WithoutHosts(a + (m + b)) == a + b
  {
    hide FindHosts, WithoutHosts, NoHost, EndsOpen, IsGraph;
    if a == "" {
      HostFirst(m, b);
      assert a + (m + b) == m + b && a + b == b;
    } else {
      HostNext(a, m + b);
      HostFound(a[1..], m, b);
      assert [a[0]] + (a[1..] + b) == a + b;
    }
  }

  // ----- the rest is split into the arguments

  /** A piece with its closing: no two hyphens in a row, and white space at its end. */
  predicate Closed(piece: string) { NoDoubleHyphen(piece) && (piece == "" || IsSpace(piece[|piece| - 1])) }

  function Flagged(pieces: seq<string>): string {
    if pieces == [] then "" else ['-', '-'] + pieces[0] + Flagged(pieces[1..])
  }

  lemma DoublePrefix(s: string)
    ensures "--" <= s <==> |s| >= 2 && s[0] == '-' && s[1] == '-'
  {
  }

  lemma {:induction false} WordRunAppend(x: string, b: string)
    ensures WordRun(x + b) == if WordRun(x) < |x| then WordRun(x) else |x| + WordRun(b)
  {
    if x == "" {
      assert x + b == b;
    } else {
      assert (x + b)[1..] == x[1..] + b && (x + b)[0] == x[0];
      WordRunAppend(x[1..], b);
    }
  }

  /** No flag begins inside a closed piece, or inside the last piece. */
  lemma NoFlagInside(rest: string, b: string)
    requires rest != "" && NoDoubleHyphen(rest)
    requires b == "" || IsSpace(rest[|rest| - 1])
    ensures !FlagMatch(rest + b)
  {
    var s, n := rest + b, WordRun(rest);
    WordRunAppend(rest, b);
    DoublePrefix(s[WordRun(s)..]);
    if n < |rest| {
      assert s[n] == rest[n];
      assert n + 1 < |rest| ==> s[n + 1] == rest[n + 1];
    } else {
      assert IsWord(rest[|rest| - 1]);
      assert WordRun("") == 0;
    }
  }

  lemma ReadOne(head: string, rest: string, b: string)
    requires rest != "" && NoDoubleHyphen(rest) && (b == "" || IsSpace(rest[|rest| - 1]))
    ensures SplitFlags(head, rest + b) == SplitFlags(head + [rest[0]], rest[1..] + b)
    ensures NoDoubleHyphen(rest[1..]) && (rest[1..] == "" || b == "" || IsSpace(rest[1..][|rest| - 2]))
  {
    NoFlagInside(rest, b);
    assert (rest + b)[1..] == rest[1..] + b && (rest + b)[0] == rest[0];
  }

  lemma {:induction false} ReadPiece(head: string, rest: string, b: string)
    requires NoDoubleHyphen(rest) && (rest == "" || b == "" || IsSpace(rest[|rest| - 1]))
    ensures SplitFlags(head, rest + b) == SplitFlags(head + rest, b)
    decreases |rest|
  {
    hide SplitFlags, NoDoubleHyphen, IsSpace;
    if rest == "" {
      assert rest + b == b && head + rest == head;
    } else {
      ReadOne(head, rest, b);
      ReadPiece(head + [rest[0]], rest[1..], b);
      assert head + [rest[0]] + rest[1..] == head + rest;
    }
  }

  lemma {:induction false} LastPiece(head: string, p: string)
    requires NoDoubleHyphen(p)
    ensures SplitFlags(head, p) == [head + p]
  {
    ReadPiece(head, p, "");
    assert p + "" == p && WordRun("") == 0;
    DoublePrefix("");
  }

  /** Two hyphens end the piece being read. */
  lemma FlagHere(head: string, tail: string)
    ensures SplitFlags(head, ['-', '-'] + tail) == [head] + SplitFlags("", tail)
  {
  }

  lemma FlaggedFirst(pieces: seq<string>)
    requires pieces != []
    ensures Flagged(pieces) == ['-', '-'] + (pieces[0] + Flagged(pieces[1..]))
  {
  }

  lemma FirstPiece(first: string, pieces: seq<string>)
    requires Closed(first) && pieces != []
    ensures SplitFlags("", first + Flagged(pieces)) == [first] + SplitFlags("", pieces[0] + Flagged(pieces[1..]))
  {
    ReadPiece("", first, Flagged(pieces));
    assert "" + first == first;
    FlaggedFirst(pieces);
    FlagHere(first, pieces[0] + Flagged(pieces[1..]));
  }

  /** The text falls apart into its first piece and the flagged ones. */
  lemma {:induction false} SplitIntoPieces(first: string, pieces: seq<string>)
    requires NoDoubleHyphen(first) && forall p :: p in pieces ==> NoDoubleHyphen(p)
    requires pieces != [] ==> Closed(first)
    requires forall k :: 0 <= k < |pieces| - 1 ==> Closed(pieces[k])
    ensures SplitFlags("", first + Flagged(pieces)) == [first] + pieces
    decreases |pieces|
  {
    if pieces == [] {
      assert first + Flagged(pieces) == first && "" + first == first && [first] + pieces == [first];
      LastPiece("", first);
    } else {
      var p, more := pieces[0], pieces[1..];
      FirstPiece(first, pieces);
      assert forall k :: 0 <= k < |more| ==> more[k] == pieces[k + 1] && more[k] in pieces;
      hide SplitFlags, Closed, NoDoubleHyphen, Flagged;
      SplitIntoPieces(p, more);
      assert [p] + more == pieces;
    }
  }

  // ----- the printed text, taken apart

  function Bodies(items: seq<Item>): seq<string> {
    seq(|items|, k requires 0 <= k < |items| => Body(items[k]))
  }

  lemma {:induction false} PrintIsFlagged(items: seq<Item>)
    ensures Print(items) == Flagged(Bodies(items))
  {
    if items != [] {
      PrintIsFlagged(items[1..]);
      assert Bodies(items)[1..] == Bodies(items[1..]);
    }
  }

  lemma {:induction false} PrintConcat(a: seq<Item>, b: seq<Item>)
    ensures Print(a + b) == Print(a) + Print(b)
  {
    if a == [] {
      assert a + b == b;
    } else {
      PrintConcat(a[1..], b);
      assert (a + b)[1..] == a[1..] + b && (a + b)[0] == a[0];
      Associative(['-', '-'] + Body(a[0]), Print(a[1..]), Print(b));
    }
  }

  /** What a body holds before the white space. */
  function ArgText(a: Arg): string {
    match a
    case Switch(name) => name
    case Setting(key, val, quoted) => key + (['='] + Quote(val, quoted))
  }

  lemma BodyIs(i: Item)
    ensures Body(i) == ArgText(i.arg) + i.gap
  {
  }

  lemma KeyIsPlain(key: string)
    requires key == "tlscacert" || key == "tlscert" || key == "tlskey"
    ensures key != "" && forall c :: c in key ==> 'a' <= c <= 'z'
  {
  }

  lemma JoinHyphens(a: string, b: string)
    requires NoDoubleHyphen(a) && NoDoubleHyphen(b)
    requires a == "" || b == "" || a[|a| - 1] != '-' || b[0] != '-'
    ensures NoDoubleHyphen(a + b)
  {
  }

  lemma JoinNoHost(a: string, b: string)
    requires NoHost(a) && NoHost(b)
    requires a == "" || b == "" || a[|a| - 1] != 'H' || b[0] != '='
    ensures NoHost(a + b)
  {
  }

  lemma GapIsPlain(gap: string)
    requires IsGap(gap)
    ensures '-' !in gap && '=' !in gap && NoDoubleHyphen(gap) && NoHost(gap) && Closed(gap)
    ensures gap != "" ==> !IsGraph(gap[0])
  {
    forall k | 0 <= k < |gap| ensures gap[k] != '-' && gap[k] != '=' { assert gap[k] in gap; }
    if gap != "" {
      assert gap[0] in gap && gap[|gap| - 1] in gap;
    }
  }

  lemma QuotedIsPlain(val: string, quoted: bool)
    requires '=' !in val && NoDoubleHyphen(val)
    ensures '=' !in Quote(val, quoted) && NoDoubleHyphen(Quote(val, quoted))
  {
  }

  lemma ArgTextIsPlain(a: Arg)
    requires GoodArg(a)
    ensures NoDoubleHyphen(ArgText(a)) && NoHost(ArgText(a))
  {
    match a
    case Switch(name) =>
      assert forall k :: 0 <= k < |name| ==> name[k] != '-' && name[k] != '=';
    case Setting(key, val, quoted) =>
      var q := Quote(val, quoted);
      KeyIsPlain(key);
      QuotedIsPlain(val, quoted);
      assert forall k :: 0 <= k < |key| ==> 'a' <= key[k] <= 'z';
      assert forall k :: 0 <= k < |q| ==> q[k] != '=';
      JoinHyphens(['='], q);
      JoinHyphens(key, ['='] + q);
      JoinNoHost(['='], q);
      JoinNoHost(key, ['='] + q);
  }

  lemma BodyIsPlain(i: Item)
    requires GoodItem(i)
    ensures NoDoubleHyphen(Body(i)) && NoHost(Body(i)) && (i.gap != "" ==> Closed(Body(i)))
  {
    BodyIs(i);
    ArgTextIsPlain(i.arg);
    GapIsPlain(i.gap);
    assert forall k :: 0 <= k < |i.gap| ==> i.gap[k] in i.gap;
    JoinHyphens(ArgText(i.arg), i.gap);
    JoinNoHost(ArgText(i.arg), i.gap);
  }

  lemma {:induction false} PrintHasNoHost(items: seq<Item>)
    requires forall i :: i in items ==> GoodItem(i)
    ensures NoHost(Print(items)) && (items != [] ==> Print(items)[0] == '-')
  {
    if items != [] {
      var i, more := items[0], items[1..];
      BodyIsPlain(i);
      PrintHasNoHost(more);
      assert more == [] ==> Print(more) == "";
      JoinNoHost(['-', '-'], Body(i));
      JoinNoHost(['-', '-'] + Body(i), Print(more));
    }
  }

  lemma {:induction false} PrintEndsOpen(items: seq<Item>)
    requires forall i :: i in items ==> GoodItem(i) && i.gap != ""
    ensures EndsOpen(Print(items))
  {
    if items != [] {
      PrintEndsOpen(items[1..]);
      var i := items[0];
      assert i.gap[|i.gap| - 1] in i.gap;
      assert Print(items) == ['-', '-'] + Body(i) + Print(items[1..]);
    }
  }

  lemma SplitPrinted(first: string, items: seq<Item>)
    requires IsGap(first) && GoodItems(items)
    ensures SplitFlags("", first + Print(items)) == [first] + Bodies(items)
  {
    var pieces := Bodies(items);
    GapIsPlain(first);
    forall k | 0 <= k < |items|
      ensures NoDoubleHyphen(pieces[k]) && (items[k].gap != "" ==> Closed(pieces[k]))
    {
      BodyIsPlain(items[k]);
    }
    PrintIsFlagged(items);
    SplitIntoPieces(first, pieces);
  }

  // ----- one argument read back

  lemma {:induction false} TrimGapRight(x: string, gap: string)
    requires IsGap(gap)
    ensures TrimRight(x + gap) == TrimRight(x)
  {
    if gap == "" {
      assert x + gap == x;
    } else {
      var n := |gap| - 1;
      assert gap[n] in gap && (x + gap)[..|x| + n] == x + gap[..n];
      TrimGapRight(x, gap[..n]);
    }
  }

  lemma {:induction false} TrimGapLeft(gap: string)
    requires IsGap(gap)
    ensures TrimLeft(gap) == ""
  {
    if gap != "" {
      assert gap[0] in gap;
      TrimGapLeft(gap[1..]);
    }
  }

  lemma TrimGap(x: string, gap: string)
    requires Trimmed(x) && IsGap(gap)
    ensures TrimSpace(x + gap) == x
  {
    if x == "" {
      assert x + gap == gap;
      TrimGapLeft(gap);
    } else {
      TrimGapRight(x, gap);
    }
  }

  lemma TrimQuote(val: string, quoted: bool)
    requires CleanEdges(val)
    ensures Trimmed(Quote(val, quoted)) && TrimQuotes(Quote(val, quoted)) == val
  {
    var q := Quote(val, quoted);
    if quoted && val == "" {
      assert q[1..] == ['"'] && ['"'][1..] == "";
      assert TrimQuotesLeft(['"']) == TrimQuotesLeft("");
    } else if quoted {
      var t := val + ['"'];
      assert q[1..] == t && t[0] == val[0] && t[..|val|] == val;
      assert TrimQuotesLeft(q) == TrimQuotesLeft(t) == t && TrimQuotesRight(t) == TrimQuotesRight(val);
    }
  }

  /** The settings under the three keys. */
  function Settings(endpoint: string, items: seq<Item>): Config {
    Config(endpoint, Lookup(items, "tlscacert"), Lookup(items, "tlscert"), Lookup(items, "tlskey"))
  }

  lemma AbsorbSwitch(config: Config, i: Item)
    requires GoodItem(i) && i.arg.Switch?
    ensures Absorb(config, Body(i)) == config
  {
    GapIsPlain(i.gap);
    SplitWithoutSeparator(Body(i), '=');
  }

  lemma SplitSetting(i: Item)
    requires GoodItem(i) && i.arg.Setting?
    ensures Split(Body(i), '=') == [i.arg.key, Quote(i.arg.val, i.arg.quoted) + i.gap]
  {
    var key, q := i.arg.key, Quote(i.arg.val, i.arg.quoted);
    KeyIsPlain(key);
    GapIsPlain(i.gap);
    QuotedIsPlain(i.arg.val, i.arg.quoted);
    Associative(key + ['='], q, i.gap);
    SplitAround(key, '=', q + i.gap);
    SplitWithoutSeparator(key, '=');
    SplitWithoutSeparator(q + i.gap, '=');
  }

  function WithSetting(config: Config, key: string, val: string): Config {
    match key
    case "tlscacert" => config.(caCert := val)
    case "tlscert" => config.(cert := val)
    case _ => config.(key := val)
  }

  lemma AbsorbSetting(config: Config, i: Item)
    requires GoodItem(i) && i.arg.Setting?
    ensures Absorb(config, Body(i)) == WithSetting(config, i.arg.key, i.arg.val)
  {
    var key := i.arg.key;
    SplitSetting(i);
    KeyIsPlain(key);
    assert key[0] in key && key[|key| - 1] in key;
    TrimmedIsFixed(key);
    TrimQuote(i.arg.val, i.arg.quoted);
    TrimGap(Quote(i.arg.val, i.arg.quoted), i.gap);
  }

  lemma AbsorbLast(endpoint: string, items: seq<Item>, i: Item)
    requires GoodItem(i)
    ensures Absorb(Settings(endpoint, items), Body(i)) == Settings(endpoint, items + [i])
  {
    assert (items + [i])[..|items|] == items;
    if i.arg.Switch? {
      AbsorbSwitch(Settings(endpoint, items), i);
    } else {
      AbsorbSetting(Settings(endpoint, items), i);
    }
  }

  lemma AbsorbFirst(endpoint: string, first: string)
    requires IsGap(first)
    ensures AbsorbAll(Config(endpoint, "", "", ""), [first]) == Config(endpoint, "", "", "")
  {
    GapIsPlain(first);
    SplitWithoutSeparator(first, '=');
    assert [first][..0] == [];
  }

  lemma AbsorbNext(start: Config, pieces: seq<string>, piece: string)
    ensures AbsorbAll(start, pieces + [piece]) == Absorb(AbsorbAll(start, pieces), piece)
  {
    assert (pieces + [piece])[..|pieces|] == pieces;
  }

  lemma {:induction false} AbsorbItems(endpoint: string, first: string, items: seq<Item>)
    requires IsGap(first) && forall i :: i in items ==> GoodItem(i)
    ensures AbsorbAll(Config(endpoint, "", "", ""), [first] + Bodies(items)) == Settings(endpoint, items)
    decreases |items|
  {
    if items == [] {
      AbsorbFirst(endpoint, first);
      assert [first] + Bodies(items) == [first];
    } else {
      hide AbsorbAll, Absorb, GoodItem, Body, Settings;
      var us, i := items[..|items| - 1], items[|items| - 1];
      assert items == us + [i] && [first] + Bodies(items) == ([first] + Bodies(us)) + [Body(i)];
      AbsorbItems(endpoint, first, us);
      AbsorbNext(Config(endpoint, "", "", ""), [first] + Bodies(us), Body(i));
      AbsorbLast(endpoint, us, i);
    }
  }

  // ----- what is left once the host is taken out

  /** White space after the host joins what stood before it. */
  function Lead(p: Printed): string { if p.before == [] then p.lead + p.gap else p.lead }

  function Remaining(p: Printed): seq<Item> {
    if p.before == [] then p.after
    else
      var n := |p.before| - 1;
      p.before[..n] + [p.before[n].(gap := p.before[n].gap + p.gap)] + p.after
  }

  lemma PrintOne(i: Item)
    ensures Print([i]) == ['-', '-'] + Body(i)
  {
  }

  /** Putting white space behind the last item. */
  lemma PrintWithGap(items: seq<Item>, i: Item, gap: string)
    ensures Print(items + [i.(gap := i.gap + gap)]) == Print(items + [i]) + gap
  {
    var j := i.(gap := i.gap + gap);
    PrintConcat(items, [i]);
    PrintConcat(items, [j]);
    PrintOne(i);
    PrintOne(j);
    BodyIs(i);
    BodyIs(j);
    Associative(ArgText(i.arg), i.gap, gap);
    Associative(['-', '-'], Body(i), gap);
    Associative(Print(items), Print([i]), gap);
  }

  lemma TextLeft(p: Printed)
    ensures p.lead + Print(p.before) + (p.gap + Print(p.after)) == Lead(p) + Print(Remaining(p))
  {
    if p.before == [] {
      assert p.lead + Print(p.before) == p.lead;
      Associative(p.lead, p.gap, Print(p.after));
    } else {
      var n := |p.before| - 1;
      var init, last := p.before[..n], p.before[n];
      assert p.before == init + [last];
      PrintWithGap(init, last, p.gap);
      PrintConcat(init + [last.(gap := last.gap + p.gap)], p.after);
      Associative(p.lead + Print(p.before), p.gap, Print(p.after));
      Associative(p.lead, Print(p.before), p.gap);
      Associative(p.lead, Print(p.before) + p.gap, Print(p.after));
    }
  }

  lemma GapJoins(a: string, b: string)
    requires IsGap(a) && IsGap(b)
    ensures IsGap(a + b)
  {
  }

  lemma RemainingIsGood(p: Printed)
    requires GoodPrinted(p)
    ensures IsGap(Lead(p)) && GoodItems(Remaining(p))
  {
    hide GoodArg, IsGap;
    GapJoins(p.lead, p.gap);
    var n, r := |p.before| - 1, Remaining(p);
    assert forall k :: 0 <= k < |p.after| ==> p.after[k] in p.after && GoodItem(p.after[k]);
    assert forall k :: 0 <= k <= n ==> p.before[k] in p.before && GoodItem(p.before[k]);
    if p.before != [] {
      GapJoins(p.before[n].gap, p.gap);
      forall k | 0 <= k < |r| ensures GoodItem(r[k]) && (k < |r| - 1 ==> r[k].gap != "") {
        if k > n {
          assert r[k] == p.after[k - n - 1];
        }
      }
    }
  }

  lemma {:induction false} SameArgs(xs: seq<Item>, ys: seq<Item>, key: string)
    requires |xs| == |ys| && forall k :: 0 <= k < |xs| ==> xs[k].arg == ys[k].arg
    ensures Lookup(xs, key) == Lookup(ys, key)
    decreases |xs|
  {
    if xs != [] {
      SameArgs(xs[..|xs| - 1], ys[..|ys| - 1], key);
    }
  }

  lemma RemainingSettings(p: Printed)
    ensures Settings(p.endpoint, Remaining(p)) == Settings(p.endpoint, p.before + p.after)
  {
    var xs, ys := Remaining(p), p.before + p.after;
    if p.before == [] {
      assert ys == p.after;
    } else {
      var n := |p.before| - 1;
      forall k | 0 <= k < |xs| ensures xs[k].arg == ys[k].arg {
        if k > n {
          assert xs[k] == p.after[k - n - 1];
        }
      }
      SameArgs(xs, ys, "tlscacert");
      SameArgs(xs, ys, "tlscert");
      SameArgs(xs, ys, "tlskey");
    }
  }

  // ----- the theorem

  lemma {:induction false} NoQuotes(s: string, tail: string)
    requires '"' !in s
    ensures RemoveQuotes(s + tail) == s + RemoveQuotes(tail)
  {
    if s == "" {
      assert s + tail == tail;
    } else {
      assert (s + tail)[1..] == s[1..] + tail && s == [s[0]] + s[1..];
      NoQuotes(s[1..], tail);
      Associative([s[0]], s[1..], RemoveQuotes(tail));
    }
  }

  lemma EndpointComesBack(endpoint: string, quoted: bool)
    requires forall c :: c in endpoint ==> IsGraph(c) && c != '"' && c != '='
    ensures var m := HostText(endpoint, quoted);
            && "-H=" <= m && (forall c :: c in m[3..] ==> IsGraph(c))
            && |Split(m, '=')| == 2 && RemoveQuotes(Split(m, '=')[1]) == endpoint
  {
    var m, q := HostText(endpoint, quoted), Quote(endpoint, quoted);
    HostPrefix(m);
    assert m[3..] == q;
    assert m == ['-', 'H'] + ['='] + q;
    SplitAround(['-', 'H'], '=', q);
    SplitWithoutSeparator(['-', 'H'], '=');
    SplitWithoutSeparator(q, '=');
    assert RemoveQuotes("") == "";
    if quoted {
      assert q[1..] == endpoint + ['"'] && ['"'][1..] == "";
      assert RemoveQuotes(['"']) == "";
      NoQuotes(endpoint, ['"']);
    } else {
      assert q == endpoint + "";
      NoQuotes(endpoint, "");
    }
  }

  lemma SidesArePlain(p: Printed)
    requires GoodPrinted(p)
    ensures NoHost(p.lead + Print(p.before)) && EndsOpen(p.lead + Print(p.before))
    ensures var b := p.gap + Print(p.after); NoHost(b) && (b != "" ==> !IsGraph(b[0]))
  {
    GapIsPlain(p.lead);
    GapIsPlain(p.gap);
    PrintHasNoHost(p.before);
    PrintHasNoHost(p.after);
    PrintEndsOpen(p.before);
    JoinNoHost(p.lead, Print(p.before));
    JoinNoHost(p.gap, Print(p.after));
    assert p.before == [] ==> Print(p.before) == "";
    assert p.after == [] ==> Print(p.after) == "";
  }

  /** Reading undoes printing: the endpoint, and under each key the value last set. */
  lemma ParseUndoesPrint(p: Printed)
    requires GoodPrinted(p)
    ensures var items := p.before + p.after;
            Parsed(PrintAll(p)) == Some(Config(p.endpoint,
              Lookup(items, "tlscacert"), Lookup(items, "tlscert"), Lookup(items, "tlskey")))
  {
    var a, m, b := p.lead + Print(p.before), HostText(p.endpoint, p.quoted), p.gap + Print(p.after);
    SidesArePlain(p);
    EndpointComesBack(p.endpoint, p.quoted);
    HostFound(a, m, b);
    Associative(a, m, b);
    TextLeft(p);
    RemainingIsGood(p);
    SplitPrinted(Lead(p), Remaining(p));
    AbsorbItems(p.endpoint, Lead(p), Remaining(p));
    RemainingSettings(p);
  }

  // ----- what is refused, and what else is read

  /** The two character classes, by code point. */
  lemma ClassesExactly(c: char)
    ensures IsGraph(c) <==> 33 <= c as int <= 126
    ensures IsWord(c) <==> 48 <= c as int <= 57 || 65 <= c as int <= 90 || 97 <= c as int <= 122 || c as int == 95
  {
  }

  /** Without a host argument nothing is read. */
  lemma NoHostIsRefused(args: string)
    requires NoHost(args)
    ensures Parsed(args).None?
  {
    NothingFound(args);
  }

  /** With two host arguments, apart from each other, nothing is read. */
  lemma TwoHostsAreRefused(a: string, m: string, b: string, n: string, c: string)
    requires NoHost(a) && EndsOpen(a) && NoHost(b) && EndsOpen(b) && b != "" && !IsGraph(b[0])
    requires NoHost(c) && (c != "" ==> !IsGraph(c[0]))
    requires "-H=" <= m && (forall x :: x in m[3..] ==> IsGraph(x))
    requires "-H=" <= n && (forall x :: x in n[3..] ==> IsGraph(x))
    ensures Parsed(a + (m + (b + (n + c)))).None?
  {
    HostFound(b, n, c);
    var rest := b + (n + c);
    HostThen(m, rest);
    HostsBefore(a, m + rest);
  }

  lemma HostThen(m: string, rest: string)
    requires "-H=" <= m && (forall x :: x in m[3..] ==> IsGraph(x)) && rest != "" && !IsGraph(rest[0])
    ensures FindHosts(m + rest) == [m] + FindHosts(rest)
  {
    var s := m + rest;
    HostPrefix(s);
    HostPrefix(m);
    assert s[3..] == m[3..] + rest && s[..|m|] == m && s[|m|..] == rest;
    GraphRunIs(m[3..], rest);
  }

  lemma {:induction false} HostsBefore(a: string, rest: string)
    requires NoHost(a) && EndsOpen(a)
    ensures FindHosts(a + rest) == FindHosts(rest)
  {
    if a == "" {
      assert a + rest == rest;
    } else {
      HostNext(a, rest);
      HostsBefore(a[1..], rest);
    }
  }

  /** A host with "=" in its endpoint is refused. */
  lemma EqualSignIsRefused(a: string, x: string, y: string, b: string)
    requires NoHost(a) && EndsOpen(a) && NoHost(b) && (b != "" ==> !IsGraph(b[0]))
    requires forall c :: c in x || c in y ==> IsGraph(c)
    ensures Parsed(a + (("-H=" + x + "=" + y) + b)).None?
  {
    var m := "-H=" + x + "=" + y;
    TwoSigns(x, y);
    hide Split, IsGraph, NoHost, EndsOpen;
    HostFound(a, m, b);
  }

  lemma TwoSigns(x: string, y: string)
    requires forall c :: c in x || c in y ==> IsGraph(c)
    ensures var m := "-H=" + x + "=" + y;
            "-H=" <= m && (forall c :: c in m[3..] ==> IsGraph(c)) && |Split(m, '=')| >= 3
  {
    var m := "-H=" + x + "=" + y;
    HostPrefix(m);
    assert m[3..] == x + ['='] + y;
    assert m == ['-', 'H'] + ['='] + (x + ['='] + y);
    hide Split;
    SplitAround(['-', 'H'], '=', x + ['='] + y);
    SplitAround(x, '=', y);
  }

  /** The word characters before two hyphens go with them. */
  lemma WordsBeforeFlagAreDropped(head: string, w: string, rest: string)
    requires w != "" && forall c :: c in w ==> IsWord(c)
    ensures SplitFlags(head, w + "--" + rest) == [head] + SplitFlags("", rest)
  {
    var s := w + "--" + rest;
    assert s == w + ("--" + rest);
    WordRunAppend(w, "--" + rest);
    WordRunAll(w);
    assert s[|w|..] == "--" + rest && s[|w| + 2..] == rest;
    assert WordRun("--" + rest) == 0;
    hide WordRun, IsWord;
  }

  lemma {:induction false} WordRunAll(w: string)
    requires forall c :: c in w ==> IsWord(c)
    ensures WordRun(w) == |w|
  {
    if w != "" {
      assert w[0] in w;
      WordRunAll(w[1..]);
    }
  }

  predicate Padding(s: string) { forall i :: 0 <= i < |s| ==> s[i] == '"' || s[i] == ' ' }

  /** Quotes and blanks around a value are taken off, in any mixture. */
  lemma TrimQuotesExactly(a: string, val: string, b: string)
    requires Padding(a) && Padding(b)
    requires val != "" && val[0] != '"' && val[0] != ' ' && val[|val| - 1] != '"' && val[|val| - 1] != ' '
    ensures TrimQuotes(a + val + b) == val
  {
    PaddingLeft(a, val + b);
    Associative(a, val, b);
    PaddingRight(val, b);
  }

  lemma {:induction false} PaddingLeft(a: string, rest: string)
    requires Padding(a) && rest != "" && rest[0] != '"' && rest[0] != ' '
    ensures TrimQuotesLeft(a + rest) == rest
  {
    if a == "" {
      assert a + rest == rest;
    } else {
      assert (a + rest)[1..] == a[1..] + rest;
      PaddingLeft(a[1..], rest);
    }
  }

  lemma {:induction false} PaddingRight(val: string, b: string)
    requires Padding(b) && val != "" && val[|val| - 1] != '"' && val[|val| - 1] != ' '
    ensures TrimQuotesRight(val + b) == val
  {
    if b == "" {
      assert val + b == val;
    } else {
      var n := |b| - 1;
      assert (val + b)[..|val| + n] == val + b[..n];
      PaddingRight(val, b[..n]);
    }
  }
}
