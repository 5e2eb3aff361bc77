/** Reading docker-machine's connection arguments (handlers/bootstrap.go). */
module ConnectionArgs {
  import opened Options
  import opened Text

  datatype Config = Config(endpoint: string, caCert: string, cert: string, key: string)

  predicate IsGraph(c: char) { '!' <= c <= '~' }
  predicate IsWord(c: char) { '0' <= c <= '9' || 'A' <= c <= 'Z' || 'a' <= c <= 'z' || c == '_' }

  function GraphRun(s: string): (n: nat)
    ensures n <= |s| && (forall i :: 0 <= i < n ==> IsGraph(s[i])) && (n < |s| ==> !IsGraph(s[n]))
  {
    if s == "" || !IsGraph(s[0]) then 0 else 1 + GraphRun(s[1..])
  }

  function WordRun(s: string): (n: nat)
    ensures n <= |s| && (forall i :: 0 <= i < n ==> IsWord(s[i])) && (n < |s| ==> !IsWord(s[n]))
  {
    if s == "" || !IsWord(s[0]) then 0 else 1 + WordRun(s[1..])
  }

  /** The length of a match of "-H=[[:alnum:]]*[[:graph:]]*" at the start of s, or 0. */
  function HostMatch(s: string): (n: nat)
    ensures n <= |s|
  {
    if "-H=" <= s then 3 + GraphRun(s[3..]) else 0
  }

  /** FindAllString and ReplaceAllString(_, "") of that expression. */
  function FindHosts(s: string): seq<string> {
    var n := HostMatch(s);
    if n > 0 then [s[..n]] + FindHosts(s[n..]) else if s == "" then [] else FindHosts(s[1..])
  }

  function WithoutHosts(s: string): string {
    var n := HostMatch(s);
    if n > 0 then WithoutHosts(s[n..]) else if s == "" then "" else [s[0]] + WithoutHosts(s[1..])
  }

  /** A match of "\w*--" at the start of s. */
  predicate FlagMatch(s: string) { "--" <= s[WordRun(s)..] }

  /** Split by that expression, the piece before s having been read. */
  function SplitFlags(piece: string, s: string): seq<string>
    decreases |s|
  {
    if FlagMatch(s) then [piece] + SplitFlags("", s[WordRun(s) + 2..])
    else if s == "" then [piece]
    else SplitFlags(piece + [s[0]], s[1..])
  }

  function RemoveQuotes(s: string): string {
    if s == "" then "" else (if s[0] == '"' then "" else [s[0]]) + RemoveQuotes(s[1..])
  }

  /** strings.Trim(s, "\" "). */
  function TrimQuotesLeft(s: string): string {
    if s != "" && (s[0] == '"' || s[0] == ' ') then TrimQuotesLeft(s[1..]) else s
  }

  function TrimQuotesRight(s: string): string {
    if s != "" && (s[|s| - 1] == '"' || s[|s| - 1] == ' ') then TrimQuotesRight(s[..|s| - 1]) else s
  }

  function TrimQuotes(s: string): string { TrimQuotesRight(TrimQuotesLeft(s)) }

  /** What the loop does with one piece. */
  function Absorb(config: Config, arg: string): Config {
    var kv := Split(arg, '=');
    if |kv| != 2 then config
    else
      var val := TrimQuotes(TrimSpace(kv[1]));
      match TrimSpace(kv[0])
      case "tlscacert" => config.(caCert := val)
      case "tlscert" => config.(cert := val)
      case "tlskey" => config.(key := val)
      case _ => config
  }

  function AbsorbAll(config: Config, args: seq<string>): Config {
    if args == [] then config else Absorb(AbsorbAll(config, args[..|args| - 1]), args[|args| - 1])
  }

  /** What the arguments say: nothing unless there is exactly one host, with one '='. */
  function Parsed(args: string): Option<Config> {
    var hosts := FindHosts(args);
    if |hosts| != 1 || |Split(hosts[0], '=')| != 2 then None
    else
      var start := Config(RemoveQuotes(Split(hosts[0], '=')[1]), "", "", "");
      Some(AbsorbAll(start, SplitFlags("", WithoutHosts(args))))
  }

  method ParseConnectionArgs(args: string) returns (r: Option<Config>)
    ensures r == Parsed(args)
  {
    var endpointMatches := FindHosts(args);
    if |endpointMatches| != 1 {
      return None;
    }
    var endpointKV := Split(endpointMatches[0], '=');
    if |endpointKV| != 2 {
      return None;
    }
    var start := Config(RemoveQuotes(endpointKV[1]), "", "", "");
    var config := start;
    var tlsArgs := SplitFlags("", WithoutHosts(args));
    var i := 0;
    while i < |tlsArgs|
      invariant 0 <= i <= |tlsArgs| && config == AbsorbAll(start, tlsArgs[..i])
    {
      assert tlsArgs[..i + 1][..i] == tlsArgs[..i];
      config := Absorb(config, tlsArgs[i]);
      i := i + 1;
    }
    assert tlsArgs[..i] == tlsArgs;
    return Some(config);
  }
}
