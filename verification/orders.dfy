/** Strict total orders, lexicographic order on sequences, and the ascending
    listing of a finite set: the order in which filepath.Walk visits a directory
    tree and in which sort.Strings puts the configuration fields. */
module Orders {

  ghost predicate StrictTotal<T(!new)>(less: (T, T) -> bool) {
    && (forall x :: !less(x, x))
    && (forall x, y, z :: less(x, y) && less(y, z) ==> less(x, z))
    && (forall x, y :: x == y || less(x, y) || less(y, x))
  }

  predicate Lex<T(==)>(less: (T, T) -> bool, a: seq<T>, b: seq<T>) {
    b != [] && (a == [] || less(a[0], b[0]) || (a[0] == b[0] && Lex(less, a[1..], b[1..])))
  }

  lemma {:induction false} LexIrreflexive<T(!new)>(less: (T, T) -> bool, a: seq<T>)
    requires StrictTotal(less)
    ensures !Lex(less, a, a)
  {
    if a != [] {
      LexIrreflexive(less, a[1..]);
    }
  }

  lemma {:induction false} LexTransitive<T(!new)>(less: (T, T) -> bool, a: seq<T>, b: seq<T>, c: seq<T>)
    requires StrictTotal(less) && Lex(less, a, b) && Lex(less, b, c)
    ensures Lex(less, a, c)
  {
    if a != [] && a[0] == b[0] == c[0] {
      LexTransitive(less, a[1..], b[1..], c[1..]);
    }
  }

  lemma {:induction false} LexTotal<T(!new)>(less: (T, T) -> bool, a: seq<T>, b: seq<T>)
    requires StrictTotal(less)
    ensures a == b || Lex(less, a, b) || Lex(less, b, a)
  {
    if a != [] && b != [] && a[0] == b[0] {
      LexTotal(less, a[1..], b[1..]);
      assert a == [a[0]] + a[1..] && b == [b[0]] + b[1..];
    }
  }

  /** A proper prefix comes before its extensions: a directory before its contents. */
  lemma {:induction false} PrefixFirst<T(!new)>(less: (T, T) -> bool, a: seq<T>, b: seq<T>)
    requires StrictTotal(less) && a < b
    ensures Lex(less, a, b)
  {
    if a != [] {
      PrefixFirst(less, a[1..], b[1..]);
    }
  }

  /** What makes a come before b: b goes on where a ends, or the first difference. */
  ghost predicate DiffersAt<T>(less: (T, T) -> bool, a: seq<T>, b: seq<T>, k: nat) {
    k <= |a| && k < |b| && a[..k] == b[..k] && (k == |a| || less(a[k], b[k]))
  }

  lemma {:induction false} LexExactly<T(!new)>(less: (T, T) -> bool, a: seq<T>, b: seq<T>)
    ensures Lex(less, a, b) <==> exists k: nat :: DiffersAt(less, a, b, k)
  {
    if a == [] || b == [] {
      assert DiffersAt(less, a, b, 0) <==> a == [] && b != [];
    } else if a[0] != b[0] {
      assert DiffersAt(less, a, b, 0) <==> less(a[0], b[0]);
      assert forall k: nat :: DiffersAt(less, a, b, k) && k > 0 ==> a[..k][0] == b[..k][0];
    } else {
      LexExactly(less, a[1..], b[1..]);
      forall k: nat ensures DiffersAt(less, a, b, k + 1) <==> DiffersAt(less, a[1..], b[1..], k) {
        if k <= |a| - 1 && k < |b| - 1 {
          assert a[..k + 1] == [a[0]] + a[1..][..k] && b[..k + 1] == [b[0]] + b[1..][..k];
          assert a[1..][..k] == a[..k + 1][1..] && b[1..][..k] == b[..k + 1][1..];
        }
      }
      if k: nat :| DiffersAt(less, a[1..], b[1..], k) {
        assert DiffersAt(less, a, b, k + 1);
      }
      if less(a[0], b[0]) {
        assert DiffersAt(less, a, b, 0);
      }
      if k: nat :| DiffersAt(less, a, b, k) {
        if k > 0 {
          assert DiffersAt(less, a[1..], b[1..], k - 1);
        }
      }
    }
  }

  predicate CharLess(a: char, b: char) { a < b }

  /** Go compares strings byte by byte; on UTF-8 that is the order of code points. */
  predicate StringLess(a: string, b: string) { Lex(CharLess, a, b) }

  /** Pre-order, names in lexical order: segment by segment. */
  predicate PathLess(a: seq<string>, b: seq<string>) { Lex(StringLess, a, b) }

  lemma StringLessIsStrictTotal()
    ensures StrictTotal(StringLess)
  {
    assert StrictTotal(CharLess);
    forall a { LexIrreflexive(CharLess, a); }
    forall a, b, c | StringLess(a, b) && StringLess(b, c) ensures StringLess(a, c) {
      LexTransitive(CharLess, a, b, c);
    }
    forall a, b ensures a == b || StringLess(a, b) || StringLess(b, a) {
      LexTotal(CharLess, a, b);
    }
  }

  lemma PathLessIsStrictTotal()
    ensures StrictTotal(PathLess)
  {
    StringLessIsStrictTotal();
    forall a { LexIrreflexive(StringLess, a); }
    forall a, b, c | PathLess(a, b) && PathLess(b, c) ensures PathLess(a, c) {
      LexTransitive(StringLess, a, b, c);
    }
    forall a, b ensures a == b || PathLess(a, b) || PathLess(b, a) {
      LexTotal(StringLess, a, b);
    }
  }

  /** a is a beginning of b, or has the smaller character where they first differ. */
  predicate SmallerAt(a: string, b: string, k: nat) {
    k <= |a| && k < |b| && a[..k] == b[..k] && (k == |a| || a[k] as int < b[k] as int)
  }

  lemma StringLessExactly(a: string, b: string)
    ensures StringLess(a, b) <==> exists k: nat :: SmallerAt(a, b, k)
  {
    LexExactly(CharLess, a, b);
    forall k: nat ensures SmallerAt(a, b, k) <==> DiffersAt(CharLess, a, b, k) { }
  }

  /** The order of a walk: a directory before its contents, and otherwise by the first
      names that differ. */
  lemma PathLessExactly(a: seq<string>, b: seq<string>)
    ensures PathLess(a, b) <==> exists k: nat :: DiffersAt(StringLess, a, b, k)
  {
    LexExactly(StringLess, a, b);
  }

  function Min(a: nat, b: nat): nat { if a < b then a else b }

  predicate Ascending<T>(less: (T, T) -> bool, s: seq<T>) {
    forall i, j :: 0 <= i < j < |s| ==> less(s[i], s[j])
  }

  predicate IsLeast<T>(less: (T, T) -> bool, m: T, xs: set<T>) {
    m in xs && forall y :: y in xs && y != m ==> less(m, y)
  }

  lemma {:induction false} LeastExists<T(!new)>(less: (T, T) -> bool, xs: set<T>)
    requires StrictTotal(less) && xs != {}
    ensures exists m :: IsLeast(less, m, xs)
  {
    var x :| x in xs;
    if xs == {x} {
      assert IsLeast(less, x, xs);
    } else {
      LeastExists(less, xs - {x});
      var m :| IsLeast(less, m, xs - {x});
      var least := if less(x, m) then x else m;
      forall y | y in xs && y != least ensures less(least, y) {
        if y != x && y != m {
          assert y in xs - {x} && less(m, y);
        }
      }
      assert IsLeast(less, least, xs);
    }
  }

  /** The elements of a finite set in ascending order. */
  function Listing<T(!new)>(less: (T, T) -> bool, xs: set<T>): (s: seq<T>)
    requires StrictTotal(less)
    ensures Ascending(less, s) && forall x :: x in s <==> x in xs
  {
    if xs == {} then [] else
      LeastExists(less, xs);
      var m :| IsLeast(less, m, xs);
      [m] + Listing(less, xs - {m})
  }

  /** An ascending sequence is determined by its elements. */
  lemma {:induction false} AscendingUnique<T(!new)>(less: (T, T) -> bool, s: seq<T>, t: seq<T>)
    requires StrictTotal(less) && Ascending(less, s) && Ascending(less, t)
    requires forall x :: x in s <==> x in t
    ensures s == t
  {
    assert s != [] ==> s[0] in t;
    assert t != [] ==> t[0] in s;
    if s != [] {
      assert s[0] == t[0];
      forall x ensures x in s[1..] <==> x in t[1..] {
        assert x in s <==> x == s[0] || x in s[1..];
        assert x in t <==> x == t[0] || x in t[1..];
      }
      AscendingUnique(less, s[1..], t[1..]);
      assert s == [s[0]] + s[1..] && t == [t[0]] + t[1..];
    }
  }
}
