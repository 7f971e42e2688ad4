/**
 * The parts of Python's `str` that the benchmark scripts rely on:
 * `split` on one separator character, `strip` with no argument,
 * the ordering `<` on strings and `sorted` over a set of strings.
 */
module Strings {

  // ---------------------------------------------------------------------
  // str.split(sep) for a one-character separator

  /** `s.split(sep)`: the pieces between separators; there is always at least one. */
  function Split(s: string, sep: char): (parts: seq<string>)
    ensures |parts| >= 1
    decreases |s|
  {
    if s == [] then [[]]
    else
      var init := Split(s[..|s| - 1], sep);
      var c := s[|s| - 1];
      if c == sep then init + [[]]
      else init[..|init| - 1] + [init[|init| - 1] + [c]]
  }

  /** `sep.join(parts)`, the inverse of `Split`. */
  function Join(parts: seq<string>, sep: char): string
    requires |parts| >= 1
  {
    if |parts| == 1 then parts[0]
    else Join(parts[..|parts| - 1], sep) + [sep] + parts[|parts| - 1]
  }

  /** Splitting then joining gives back the string, and no piece holds the separator. */
  lemma {:induction false} JoinSplit(s: string, sep: char)
    ensures Join(Split(s, sep), sep) == s
    ensures forall p :: p in Split(s, sep) ==> sep !in p
    decreases |s|
  {
    if s != [] {
      var init := s[..|s| - 1];
      JoinSplit(init, sep);
      var ps := Split(init, sep);
      if s[|s| - 1] == sep {
        assert Split(s, sep)[..|Split(s, sep)| - 1] == ps;
      } else {
        var ps' := Split(s, sep);
        assert ps'[..|ps'| - 1] == ps[..|ps| - 1];
        if |ps| > 1 {
          assert ps[..|ps| - 1] + [ps[|ps| - 1]] == ps;
          assert Join(ps, sep) == Join(ps[..|ps| - 1], sep) + [sep] + ps[|ps| - 1];
        }
        forall p | p in ps' ensures sep !in p {
          if p !in ps[..|ps| - 1] {
            assert p == ps[|ps| - 1] + [s[|s| - 1]];
          }
        }
      }
      assert init + [s[|s| - 1]] == s;
    }
  }

  /** A string without the separator is a single piece. */
  lemma {:induction false} SplitNoSeparator(b: string, sep: char)
    requires sep !in b
    ensures Split(b, sep) == [b]
    decreases |b|
  {
    if b != [] {
      SplitNoSeparator(b[..|b| - 1], sep);
      assert b[..|b| - 1] + [b[|b| - 1]] == b;
    }
  }

  /** Appending a separator and a separator-free tail adds exactly one piece. */
  lemma {:induction false} SplitAppend(a: string, b: string, sep: char)
    requires sep !in b
    ensures Split(a + [sep] + b, sep) == Split(a, sep) + [b]
    decreases |b|
  {
    var s := a + [sep] + b;
    if b == [] {
      assert s[..|s| - 1] == a;
    } else {
      var b' := b[..|b| - 1];
      SplitAppend(a, b', sep);
      assert s[..|s| - 1] == a + [sep] + b';
      assert b' + [b[|b| - 1]] == b;
    }
  }

  /** The inverse direction: joining separator-free pieces and splitting again gives them back. */
  lemma {:induction false} SplitJoin(parts: seq<string>, sep: char)
    requires |parts| >= 1
    requires forall p :: p in parts ==> sep !in p
    ensures Split(Join(parts, sep), sep) == parts
    decreases |parts|
  {
    if |parts| == 1 {
      SplitNoSeparator(parts[0], sep);
    } else {
      var init := parts[..|parts| - 1];
      SplitJoin(init, sep);
      SplitAppend(Join(init, sep), parts[|parts| - 1], sep);
      assert init + [parts[|parts| - 1]] == parts;
    }
  }

  /** There is one more piece than there are separators. */
  lemma {:induction false} SplitCount(s: string, sep: char)
    ensures |Split(s, sep)| == multiset(s)[sep] + 1
    decreases |s|
  {
    if s != [] {
      SplitCount(s[..|s| - 1], sep);
      assert s == s[..|s| - 1] + [s[|s| - 1]];
      assert multiset(s) == multiset(s[..|s| - 1]) + multiset{s[|s| - 1]};
    }
  }

  /**
   * The last piece is what follows the last separator: the string is
   * some prefix, then (when there is more than one piece) the separator,
   * then the last piece.
   */
  lemma LastPieceIsSuffix(s: string, sep: char)
    ensures var ps := Split(s, sep);
            var last := ps[|ps| - 1];
            |last| <= |s| && s[|s| - |last|..] == last && sep !in last &&
            (|ps| > 1 ==> |last| < |s| && s[|s| - |last| - 1] == sep)
  {
    JoinSplit(s, sep);
    var ps := Split(s, sep);
    assert ps[|ps| - 1] in ps;
    if |ps| > 1 {
      assert s == Join(ps[..|ps| - 1], sep) + [sep] + ps[|ps| - 1];
    }
  }

  // ---------------------------------------------------------------------
  // str.strip() with no argument

  /** The characters for which Python's `str.isspace` holds; `strip()` removes exactly these. */
  predicate IsSpace(c: char)
  {
    c == ' ' || c == '\t' || c == '\n' || c == '\r' || c == '\U{0B}' || c == '\U{0C}' ||
    ('\U{1C}' <= c <= '\U{1F}') || c == '\U{85}' || c == '\U{A0}' || c == '\U{1680}' ||
    ('\U{2000}' <= c <= '\U{200A}') || c == '\U{2028}' || c == '\U{2029}' ||
    c == '\U{202F}' || c == '\U{205F}' || c == '\U{3000}'
  }

  /** `s.lstrip()`: drops the leading white space, and only that. */
  function TrimLeft(s: string): (r: string)
    ensures |r| <= |s| && r == s[|s| - |r|..]
    ensures forall i :: 0 <= i < |s| - |r| ==> IsSpace(s[i])
    ensures r == [] || !IsSpace(r[0])
    decreases |s|
  {
    if s != [] && IsSpace(s[0]) then TrimLeft(s[1..]) else s
  }

  /** `s.rstrip()`: drops the trailing white space, and only that. */
  function TrimRight(s: string): (r: string)
    ensures |r| <= |s| && r == s[..|r|]
    ensures forall i :: |r| <= i < |s| ==> IsSpace(s[i])
    ensures r == [] || !IsSpace(r[|r| - 1])
    decreases |s|
  {
    if s != [] && IsSpace(s[|s| - 1]) then TrimRight(s[..|s| - 1]) else s
  }

  /**
   * `s.strip()`: the slice of `s` left after the leading and the trailing
   * white space are dropped; it neither starts nor ends with white space.
   */
  function Strip(s: string): (r: string)
    ensures |r| <= |s|
    ensures r == [] || (!IsSpace(r[0]) && !IsSpace(r[|r| - 1]))
    ensures var i := |s| - |TrimLeft(s)|;
            i + |r| <= |s| && r == s[i..i + |r|] &&
            (forall k :: 0 <= k < i ==> IsSpace(s[k])) &&
            (forall k :: i + |r| <= k < |s| ==> IsSpace(s[k]))
  {
    var l := TrimLeft(s);
    TrimmedSuffix(s, l, TrimRight(l));
    TrimRight(l)
  }

  /**
   * Trimming the end of a suffix of `s`: what is kept is a slice of `s`,
   * and what is dropped is white space at the end of `s`.
   */
  lemma TrimmedSuffix(s: string, l: string, r: string)
    requires |l| <= |s| && l == s[|s| - |l|..]
    requires |r| <= |l| && r == l[..|r|]
    requires forall j :: |r| <= j < |l| ==> IsSpace(l[j])
    ensures var i := |s| - |l|;
            r == s[i..i + |r|] && forall k :: i + |r| <= k < |s| ==> IsSpace(s[k])
  {
    var i := |s| - |l|;
    forall j | 0 <= j < |r|
      ensures r[j] == s[i + j]
    {
      assert r[j] == l[j];
    }
    forall k | i + |r| <= k < |s|
      ensures IsSpace(s[k])
    {
      assert s[k] == l[k - i];
    }
  }

  /** A string that neither starts nor ends with white space is left as it is. */
  lemma StripUnchanged(s: string)
    requires s == [] || (!IsSpace(s[0]) && !IsSpace(s[|s| - 1]))
    ensures Strip(s) == s
  {
  }

  /** Stripping twice is stripping once. */
  lemma StripIdempotent(s: string)
    ensures Strip(Strip(s)) == Strip(s)
  {
    StripUnchanged(Strip(s));
  }

  /** `s.strip()` is empty exactly when `s` is all white space. */
  lemma StripEmpty(s: string)
    ensures Strip(s) == [] <==> forall i :: 0 <= i < |s| ==> IsSpace(s[i])
  {
    var l := TrimLeft(s);
    if l != [] {
      assert !IsSpace(s[|s| - |l|]);
    }
  }

  // ---------------------------------------------------------------------
  // Ordering of strings and sorted()

  /** Python's `a < b` on strings: lexicographic by code point, a proper prefix first. */
  predicate LexLess(a: string, b: string)
    decreases |a|
  {
    if a == [] then b != []
    else if b == [] then false
    else if a[0] < b[0] then true
    else a[0] == b[0] && LexLess(a[1..], b[1..])
  }

  lemma {:induction false} LexIrreflexive(a: string)
    ensures !LexLess(a, a)
    decreases |a|
  {
    if a != [] { LexIrreflexive(a[1..]); }
  }

  lemma {:induction false} LexTransitive(a: string, b: string, c: string)
    requires LexLess(a, b) && LexLess(b, c)
    ensures LexLess(a, c)
    decreases |a|
  {
    if a != [] && b != [] && c != [] && a[0] == b[0] == c[0] {
      LexTransitive(a[1..], b[1..], c[1..]);
    }
  }

  /** Any two different strings are ordered one way or the other. */
  lemma {:induction false} LexTotal(a: string, b: string)
    requires a != b
    ensures LexLess(a, b) || LexLess(b, a)
    decreases |a|
  {
    if a != [] && b != [] && a[0] == b[0] {
      assert a == [a[0]] + a[1..] && b == [b[0]] + b[1..];
      LexTotal(a[1..], b[1..]);
    }
  }

  lemma LexAsymmetric(a: string, b: string)
    requires LexLess(a, b)
    ensures !LexLess(b, a)
  {
    if LexLess(b, a) {
      LexTransitive(a, b, a);
      LexIrreflexive(a);
    }
  }

  /** Ascending without repeats, as `sorted(set)` produces. */
  predicate StrictlySorted(ks: seq<string>)
  {
    forall i, j :: 0 <= i < j < |ks| ==> LexLess(ks[i], ks[j])
  }

  /** Puts a new element into its place in a strictly sorted sequence. */
  function Insert(x: string, ks: seq<string>): (r: seq<string>)
    requires StrictlySorted(ks) && x !in ks
    ensures StrictlySorted(r)
    ensures |r| == |ks| + 1
    ensures forall k :: k in r <==> k in ks || k == x
  {
    if ks == [] then [x]
    else if LexLess(x, ks[0]) then
      forall j | 0 < j < |ks| ensures LexLess(x, ks[j]) { LexTransitive(x, ks[0], ks[j]); }
      [x] + ks
    else
      LexTotal(x, ks[0]);
      var rest := Insert(x, ks[1..]);
      assert forall k :: k in rest ==> LexLess(ks[0], k);
      [ks[0]] + rest
  }

  /** The first element of a strictly sorted sequence is below every other element. */
  lemma FirstIsLeast(xs: seq<string>, k: string)
    requires StrictlySorted(xs) && k in xs && k != xs[0]
    ensures LexLess(xs[0], k)
  {
    var j :| 0 <= j < |xs| && xs[j] == k;
  }

  lemma HeadIn(xs: seq<string>)
    requires xs != []
    ensures xs[0] in xs
  {
  }

  /** A finite set of strings has exactly one strictly sorted listing. */
  lemma {:induction false} SortedUnique(xs: seq<string>, ys: seq<string>)
    requires StrictlySorted(xs) && StrictlySorted(ys)
    requires forall k :: k in xs <==> k in ys
    ensures xs == ys
    decreases |xs|
  {
    if xs != [] && ys != [] {
      HeadIn(xs);
      HeadIn(ys);
      if xs[0] != ys[0] {
        FirstIsLeast(xs, ys[0]);
        FirstIsLeast(ys, xs[0]);
        LexAsymmetric(xs[0], ys[0]);
        assert false;
      }
      forall k ensures k in xs[1..] <==> k in ys[1..] {
        if k in xs[1..] {
          var i :| 1 <= i < |xs| && xs[i] == k;
          assert LexLess(xs[0], k);
          LexIrreflexive(k);
          assert k in xs && k in ys;
          var j :| 0 <= j < |ys| && ys[j] == k;
          assert j != 0;
          assert ys[1..][j - 1] == k;
        }
        if k in ys[1..] {
          var i :| 1 <= i < |ys| && ys[i] == k;
          assert LexLess(ys[0], k);
          LexIrreflexive(k);
          assert k in ys && k in xs;
          var j :| 0 <= j < |xs| && xs[j] == k;
          assert j != 0;
          assert xs[1..][j - 1] == k;
        }
      }
      SortedUnique(xs[1..], ys[1..]);
      assert xs == [xs[0]] + xs[1..] && ys == [ys[0]] + ys[1..];
    } else if xs != [] {
      HeadIn(xs);
      assert false;
    } else if ys != [] {
      HeadIn(ys);
      assert false;
    }
  }

  /** `sorted(list(keys))`: every element of the set once, in ascending order. */
  method SortedKeys(keys: set<string>) returns (ks: seq<string>)
    ensures StrictlySorted(ks)
    ensures forall k :: k in ks <==> k in keys
    ensures |ks| == |keys|
  {
    ks := [];
    var rest := keys;
    while rest != {}
      invariant rest <= keys
      invariant StrictlySorted(ks)
      invariant forall k :: k in ks <==> k in keys - rest
      invariant |ks| + |rest| == |keys|
      decreases rest
    {
      var k :| k in rest;
      ks := Insert(k, ks);
      rest := rest - {k};
    }
  }
}
