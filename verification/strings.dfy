/** String helpers standing in for the Python `str` methods the source relies
    on: `lower`, `startswith`, `split`/`rsplit` on one separator character,
    `join`, negative slicing and the ordering `sorted` uses. */
module Strings {

  predicate IsUpper(c: char) {
    'A' <= c <= 'Z'
  }

  function LowerChar(c: char): char {
    if IsUpper(c) then (c as int + 32) as char else c
  }

  /** `s.lower()` on the ASCII letters. */
  function ToLower(s: string): (r: string)
    ensures |r| == |s|
    ensures forall i :: 0 <= i < |s| ==> r[i] == LowerChar(s[i])
    ensures forall i :: 0 <= i < |r| ==> !IsUpper(r[i])
  {
    seq(|s|, i requires 0 <= i < |s| => LowerChar(s[i]))
  }

  /** Lower-casing twice is lower-casing once. */
  lemma ToLowerIdempotent(s: string)
    ensures ToLower(ToLower(s)) == ToLower(s)
  {
  }

  predicate StartsWith(s: string, prefix: string) {
    |prefix| <= |s| && s[..|prefix|] == prefix
  }

  /** `s[:-n]` for a positive `n`: everything but the last `n` characters, empty
      when `s` is shorter. */
  function DropLast(s: string, n: nat): (r: string)
    requires n > 0
    ensures |s| >= n ==> |r| == |s| - n
    ensures |s| < n ==> r == []
    ensures r + s[|r|..] == s
  {
    if |s| >= n then s[..|s| - n] else []
  }

  /** Position of the first occurrence of `c` in `s`. */
  function IndexOf(s: string, c: char): (i: nat)
    requires c in s
    ensures i < |s| && s[i] == c && c !in s[..i]
  {
    if s[0] == c then 0
    else
      assert c in s[1..];
      1 + IndexOf(s[1..], c)
  }

  /** `s.split(c)` (equivalently `s.rsplit(c)`): the maximal `c`-free pieces. */
  function Split(s: string, c: char): (r: seq<string>)
    ensures |r| >= 1
    ensures forall k :: 0 <= k < |r| ==> c !in r[k]
    decreases |s|
  {
    if c !in s then [s]
    else
      var i := IndexOf(s, c);
      [s[..i]] + Split(s[i + 1..], c)
  }

  /** `sep.join(xs)` */
  function Join(xs: seq<string>, sep: string): string
  {
    if |xs| == 0 then []
    else if |xs| == 1 then xs[0]
    else xs[0] + sep + Join(xs[1..], sep)
  }

  function Last<T>(xs: seq<T>): T
    requires |xs| > 0
  {
    xs[|xs| - 1]
  }

  /** Joining the pieces of a split restores the string. */
  lemma {:induction false} JoinSplit(s: string, c: char)
    ensures Join(Split(s, c), [c]) == s
    decreases |s|
  {
    if c in s {
      var i := IndexOf(s, c);
      JoinSplit(s[i + 1..], c);
      var rest := Split(s[i + 1..], c);
      assert Split(s, c) == [s[..i]] + rest;
      assert ([s[..i]] + rest)[1..] == rest;
      assert s == s[..i] + [c] + s[i + 1..];
    }
  }

  /** A split at the first separator: `x` free of `c` followed by `c` and `t`. */
  lemma SplitCons(x: string, c: char, t: string)
    requires c !in x
    ensures Split(x + [c] + t, c) == [x] + Split(t, c)
  {
    var s := x + [c] + t;
    assert s[|x|] == c;
    assert s[..|x|] == x;
    var i := IndexOf(s, c);
    assert i == |x|;
    assert s[i + 1..] == t;
  }

  /** Splitting a join of separator-free pieces gives the pieces back. */
  lemma {:induction false} SplitJoin(xs: seq<string>, c: char)
    requires |xs| >= 1
    requires forall k :: 0 <= k < |xs| ==> c !in xs[k]
    ensures Split(Join(xs, [c]), c) == xs
  {
    if |xs| > 1 {
      SplitJoin(xs[1..], c);
      SplitCons(xs[0], c, Join(xs[1..], [c]));
      assert Join(xs, [c]) == xs[0] + [c] + Join(xs[1..], [c]);
      assert xs == [xs[0]] + xs[1..];
    }
  }

  /** The text after the last `c` of `s`: `s.split(c)[-1]`. */
  function AfterLast(s: string, c: char): string
  {
    Last(Split(s, c))
  }

  /** Without a separator, the last piece is the whole string. */
  lemma AfterLastNoSeparator(s: string, c: char)
    requires c !in s
    ensures AfterLast(s, c) == s
  {
    assert Split(s, c) == [s];
  }

  /** Past a separator, the last piece is the same. */
  lemma AfterLastStep(x: string, c: char, t: string)
    requires c !in x
    ensures AfterLast(x + [c] + t, c) == AfterLast(t, c)
  {
    SplitCons(x, c, t);
    assert Last([x] + Split(t, c)) == Last(Split(t, c));
  }

  /** Past the first separator, at `i`, the last piece is the same. */
  lemma AfterLastAfterFirst(s: string, c: char, i: nat)
    requires i < |s| && s[i] == c && c !in s[..i]
    ensures AfterLast(s, c) == AfterLast(s[i + 1..], c)
  {
    assert s == s[..i] + [c] + s[i + 1..];
    AfterLastStep(s[..i], c, s[i + 1..]);
  }

  /** `r` is a separator-free suffix of `s`, either all of `s` or preceded
      by the separator. */
  predicate IsLastPiece(s: string, c: char, r: string) {
    |r| <= |s| && s[|s| - |r|..] == r && c !in r && (|r| == |s| || s[|s| - |r| - 1] == c)
  }

  /** The last piece after a separator is the last piece of the whole. */
  lemma LastPieceAfterSeparator(s: string, c: char, i: nat, r: string)
    requires i < |s| && s[i] == c && IsLastPiece(s[i + 1..], c, r)
    ensures IsLastPiece(s, c, r)
  {
    var t := s[i + 1..];
    assert t[|t| - |r|..] == s[|s| - |r|..];
    if |r| < |t| {
      assert s[|s| - |r| - 1] == t[|t| - |r| - 1];
    } else {
      assert s[|s| - |r| - 1] == s[i];
    }
  }

  /** The last piece of a split is the text after the last separator: a
      separator-free suffix of `s` that is either all of `s` or preceded by
      the separator. */
  lemma {:induction false} AfterLastIsSuffix(s: string, c: char)
    ensures |AfterLast(s, c)| <= |s|
    ensures s[|s| - |AfterLast(s, c)|..] == AfterLast(s, c)
    ensures c !in AfterLast(s, c)
    ensures |AfterLast(s, c)| == |s| || s[|s| - |AfterLast(s, c)| - 1] == c
    decreases |s|
  {
    if c !in s {
      AfterLastNoSeparator(s, c);
      assert IsLastPiece(s, c, s);
    } else {
      var i := IndexOf(s, c);
      AfterLastIsSuffix(s[i + 1..], c);
      AfterLastAfterFirst(s, c, i);
      var r := AfterLast(s[i + 1..], c);
      assert IsLastPiece(s[i + 1..], c, r);
      LastPieceAfterSeparator(s, c, i, r);
    }
  }

  /** Python's `<=` on strings: lexicographic by code point. */
  predicate StrLe(a: string, b: string)
  {
    |a| == 0 || (|b| > 0 && (a[0] < b[0] || (a[0] == b[0] && StrLe(a[1..], b[1..]))))
  }

  lemma {:induction false} StrLeReflexive(a: string)
    ensures StrLe(a, a)
  {
    if |a| > 0 {
      StrLeReflexive(a[1..]);
    }
  }

  lemma {:induction false} StrLeTotal(a: string, b: string)
    ensures StrLe(a, b) || StrLe(b, a)
  {
    if |a| > 0 && |b| > 0 && a[0] == b[0] {
      StrLeTotal(a[1..], b[1..]);
    }
  }

  lemma {:induction false} StrLeTransitive(a: string, b: string, c: string)
    requires StrLe(a, b) && StrLe(b, c)
    ensures StrLe(a, c)
  {
    if |a| > 0 && a[0] == b[0] && b[0] == c[0] {
      StrLeTransitive(a[1..], b[1..], c[1..]);
    }
  }
}
