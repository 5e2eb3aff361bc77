/** Go's string and strings operations on valid UTF-8 text. */
module Text {

  /** len(s) counts bytes of the UTF-8 encoding. */
  function RuneLen(c: char): nat {
    if c < '\U{80}' then 1 else if c < '\U{800}' then 2 else if c < '\U{10000}' then 3 else 4
  }

  function ByteLen(s: string): (n: nat)
    ensures |s| <= n <= 4 * |s|
  {
    if s == "" then 0 else RuneLen(s[0]) + ByteLen(s[1..])
  }

  /** n bytes of UTF-8 hold 7, 11, 16 and 21 bits. */
  lemma RuneLenExactly(c: char)
    ensures var n := c as int;
            RuneLen(c) == if n < 128 then 1 else if n < 2048 then 2 else if n < 65536 then 3 else 4
  {
  }

  lemma {:induction false} AsciiLen(s: string)
    requires forall c :: c in s ==> c < '\U{80}'
    ensures ByteLen(s) == |s|
  {
    if s != "" {
      assert s[0] in s && forall c :: c in s[1..] ==> c in s;
      AsciiLen(s[1..]);
    }
  }

  lemma {:induction false} ByteLenConcat(a: string, b: string)
    ensures ByteLen(a + b) == ByteLen(a) + ByteLen(b)
  {
    if a == "" {
      assert a + b == b;
    } else {
      assert (a + b)[1..] == a[1..] + b;
      ByteLenConcat(a[1..], b);
    }
  }

  predicate HasPrefix(s: string, prefix: string) { prefix <= s }

  predicate HasSuffix(s: string, suffix: string) {
    |suffix| <= |s| && s[|s| - |suffix|..] == suffix
  }

  function TrimPrefix(s: string, prefix: string): string {
    if HasPrefix(s, prefix) then s[|prefix|..] else s
  }

  predicate Contains(s: string, sub: string) {
    exists i :: 0 <= i <= |s| && sub <= s[i..]
  }

  /** Two dots in a row. */
  predicate HasDots(s: string) { exists i :: 0 <= i < |s| - 1 && s[i] == s[i + 1] == '.' }

  /** Not empty, not absolute, no two dots in a row and no backslash. */
  predicate SafeText(name: string) { name != "" && name[0] != '/' && !HasDots(name) && '\\' !in name }

  lemma ContainsDots(s: string)
    ensures Contains(s, "..") <==> HasDots(s)
  {
    if i :| 0 <= i <= |s| && ".." <= s[i..] {
      assert s[i..][0] == s[i] && s[i..][1] == s[i + 1];
    }
    if i :| 0 <= i < |s| - 1 && s[i] == s[i + 1] == '.' {
      assert ".." <= s[i..];
    }
  }

  lemma ContainsChar(s: string, c: char)
    ensures Contains(s, [c]) <==> c in s
  {
    if i :| 0 <= i <= |s| && [c] <= s[i..] {
      assert s[i..][0] == s[i];
    }
    if i :| 0 <= i < |s| && s[i] == c {
      assert [c] <= s[i..];
    }
  }

  /** strings.ContainsAny. */
  predicate ContainsAny(s: string, chars: string) {
    exists i :: 0 <= i < |s| && s[i] in chars
  }

  /** The parts of a string that starts with c, from the parts of what follows c. */
  function Extend(c: char, sep: char, parts: seq<string>): (r: seq<string>)
    requires parts != []
  {
    if c == sep then [""] + parts else [[c] + parts[0]] + parts[1..]
  }

  function Split(s: string, sep: char): (parts: seq<string>)
    ensures parts != []
  {
    if s == "" then [""] else Extend(s[0], sep, Split(s[1..], sep))
  }

  /** strings.SplitN(s, sep, 2): the text before and after the first separator. */
  function Cut(s: string, sep: char): (r: (string, bool, string))
    ensures r.1 ==> sep !in r.0 && s == r.0 + [sep] + r.2
    ensures !r.1 ==> sep !in s
  {
    if s == "" then ("", false, "")
    else if s[0] == sep then ("", true, s[1..])
    else
      var r := Cut(s[1..], sep);
      ([s[0]] + r.0, r.1, r.2)
  }

  lemma {:induction false} CutAround(a: string, sep: char, b: string)
    requires sep !in a
    ensures Cut(a + [sep] + b, sep) == (a, true, b)
  {
    var s := a + [sep] + b;
    if a == "" {
      assert s[1..] == b;
    } else {
      CutAround(a[1..], sep, b);
      assert s[1..] == a[1..] + [sep] + b && s[0] == a[0];
      assert [a[0]] + a[1..] == a;
    }
  }

  function Join(parts: seq<string>, sep: char): string {
    if parts == [] then "" else if |parts| == 1 then parts[0] else parts[0] + [sep] + Join(parts[1..], sep)
  }

  lemma {:induction false} SplitWithoutSeparator(s: string, sep: char)
    requires sep !in s
    ensures Split(s, sep) == [s]
  {
    if s != "" {
      SplitWithoutSeparator(s[1..], sep);
      assert s == [s[0]] + s[1..];
    }
  }

  lemma ExtendAppend(c: char, sep: char, head: seq<string>, tail: seq<string>)
    requires head != []
    ensures Extend(c, sep, head + tail) == Extend(c, sep, head) + tail
  {
  }

  lemma {:induction false} SplitAround(a: string, sep: char, b: string)
    ensures Split(a + [sep] + b, sep) == Split(a, sep) + Split(b, sep)
  {
    var s := a + [sep] + b;
    if a == "" {
      assert s[1..] == b;
    } else {
      SplitAround(a[1..], sep, b);
      assert s[1..] == a[1..] + [sep] + b && s[0] == a[0];
      ExtendAppend(s[0], sep, Split(a[1..], sep), Split(b, sep));
    }
  }

  /** Splitting undoes joining. */
  lemma {:induction false} SplitJoin(parts: seq<string>, sep: char)
    requires parts != [] && forall p :: p in parts ==> sep !in p
    ensures Split(Join(parts, sep), sep) == parts
  {
    SplitWithoutSeparator(parts[0], sep);
    if |parts| > 1 {
      SplitJoin(parts[1..], sep);
      SplitAround(parts[0], sep, Join(parts[1..], sep));
      assert parts == [parts[0]] + parts[1..];
    }
  }

  /** The first part is what stands before the first separator. */
  lemma {:induction false} SplitFirst(s: string, sep: char)
    ensures Split(s, sep)[0] == Cut(s, sep).0
  {
    if s != "" {
      SplitFirst(s[1..], sep);
    }
  }

  lemma {:induction false} PartsHaveNoSeparator(s: string, sep: char)
    ensures forall p :: p in Split(s, sep) ==> sep !in p
  {
    if s != "" {
      PartsHaveNoSeparator(s[1..], sep);
      var rest := Split(s[1..], sep);
      assert rest[0] in rest;
      forall p | p in Split(s, sep) ensures sep !in p {
        if p !in rest {
          assert p == "" || p == [s[0]] + rest[0];
        }
      }
    }
  }

  lemma {:induction false} JoinSplit(s: string, sep: char)
    ensures Join(Split(s, sep), sep) == s
  {
    if s != "" {
      JoinSplit(s[1..], sep);
      var rest := Split(s[1..], sep);
      assert s == [s[0]] + s[1..];
      if s[0] == sep {
        assert ([""] + rest)[1..] == rest;
      } else {
        assert ([[s[0]] + rest[0]] + rest[1..])[1..] == rest[1..];
      }
    }
  }

  /** unicode.IsSpace. */
  predicate IsSpace(c: char) {
    || '\t' <= c <= '\r' || c == ' ' || c == '\U{85}' || c == '\U{A0}' || c == '\U{1680}'
    || '\U{2000}' <= c <= '\U{200A}' || c == '\U{2028}' || c == '\U{2029}' || c == '\U{202F}'
    || c == '\U{205F}' || c == '\U{3000}'
  }

  /** unicode.IsControl. */
  predicate IsControl(c: char) { c < '\U{20}' || '\U{7F}' <= c < '\U{A0}' }

  function TrimLeft(s: string): (t: string)
    ensures t != "" ==> !IsSpace(t[0])
  {
    if s != "" && IsSpace(s[0]) then TrimLeft(s[1..]) else s
  }

  function TrimRight(s: string): (t: string)
    ensures t <= s && (t != "" ==> !IsSpace(t[|t| - 1]))
  {
    if s != "" && IsSpace(s[|s| - 1]) then TrimRight(s[..|s| - 1]) else s
  }

  function TrimSpace(s: string): string { TrimRight(TrimLeft(s)) }

  predicate Trimmed(s: string) {
    s != "" ==> !IsSpace(s[0]) && !IsSpace(s[|s| - 1])
  }

  lemma TrimSpaceTrims(s: string)
    ensures Trimmed(TrimSpace(s))
  {
    var t := TrimLeft(s);
    var u := TrimRight(t);
    if u != "" {
      assert u[0] == t[0];
    }
  }

  lemma TrimmedIsFixed(s: string)
    requires Trimmed(s)
    ensures TrimSpace(s) == s
  {
  }

  predicate AllSpace(s: string) { forall c :: c in s ==> IsSpace(c) }

  lemma {:induction false} TrimLeftCuts(s: string)
    ensures |TrimLeft(s)| <= |s|
    ensures var n := |s| - |TrimLeft(s)|; TrimLeft(s) == s[n..] && AllSpace(s[..n])
  {
    if s != "" && IsSpace(s[0]) {
      TrimLeftCuts(s[1..]);
      var n := |s| - |TrimLeft(s)|;
      assert s[..n] == [s[0]] + s[1..][..n - 1];
    }
  }

  lemma {:induction false} TrimRightCuts(s: string)
    ensures AllSpace(s[|TrimRight(s)|..])
  {
    var n := |s| - 1;
    if s != "" && IsSpace(s[n]) {
      TrimRightCuts(s[..n]);
      var k := |TrimRight(s)|;
      assert s[k..] == s[..n][k..] + [s[n]];
    }
  }

  /** The text without the white space around it. */
  lemma TrimSpaceExactly(s: string)
    ensures Trimmed(TrimSpace(s))
    ensures exists a, b :: AllSpace(a) && AllSpace(b) && s == a + TrimSpace(s) + b
  {
    TrimSpaceTrims(s);
    TrimLeftCuts(s);
    TrimRightCuts(TrimLeft(s));
    var n, k := |s| - |TrimLeft(s)|, |TrimSpace(s)|;
    assert s == s[..n] + TrimSpace(s) + TrimLeft(s)[k..];
  }

  /** The characters with the property White_Space, by code point. */
  lemma SpaceExactly(c: char)
    ensures var n := c as int;
            IsSpace(c) <==> 9 <= n <= 13 || 8192 <= n <= 8202
                            || n in [32, 133, 160, 5760, 8232, 8233, 8239, 8287, 12288]
  {
  }

  predicate IsLower(c: char) { 'a' <= c <= 'z' }
  predicate IsUpper(c: char) { 'A' <= c <= 'Z' }

  /** ASCII case mapping; other characters keep their case. */
  function LowerChar(c: char): char { if IsUpper(c) then c - 'A' + 'a' else c }
  function UpperChar(c: char): char { if IsLower(c) then c - 'a' + 'A' else c }

  function ToLower(s: string): (t: string)
    ensures |t| == |s| && forall i :: 0 <= i < |s| ==> t[i] == LowerChar(s[i])
  {
    seq(|s|, i requires 0 <= i < |s| => LowerChar(s[i]))
  }

  /** The case mapping on code points: 32 is between a capital and its small letter. */
  lemma ToLowerExactly(s: string, i: nat)
    requires i < |s|
    ensures ToLower(s)[i] as int == if 65 <= s[i] as int <= 90 then s[i] as int + 32 else s[i] as int
  {
  }

  lemma ToLowerAppend(a: string, b: string)
    ensures ToLower(a + b) == ToLower(a) + ToLower(b)
  {
  }

  lemma Associative<T>(a: seq<T>, b: seq<T>, c: seq<T>)
    ensures (a + b) + c == a + (b + c)
  {
  }
}
