/**
 * The handful of Python `str` operations the dependency controller relies on:
 * `in` on substrings, `str.find`, `str.split(sep)`, `str.strip()`,
 * `str.replace(c, '')`, `str.startswith` and the ordering `<=` on strings.
 * Strings are sequences of Unicode scalar values, as Python's `str` is.
 */
module PyText {

  import opened Wrappers

  /** `str.isspace()` on one character: what `str.strip()` removes and what `\s` matches in a `str` pattern. */
  predicate IsSpace(c: char)
  {
    || ('\t' <= c <= '\r')
    || ('\U{1c}' <= c <= '\U{1f}')
    || c == ' ' || c == '\U{85}' || c == '\U{a0}' || c == '\U{1680}'
    || ('\U{2000}' <= c <= '\U{200a}')
    || c == '\U{2028}' || c == '\U{2029}' || c == '\U{202f}' || c == '\U{205f}' || c == '\U{3000}'
  }

  /** `sub` occurs in `s` starting at index `i`. */
  predicate OccursAt(s: string, sub: string, i: nat)
  {
    i + |sub| <= |s| && s[i..i + |sub|] == sub
  }

  /** Python's `sub in s`. */
  predicate Contains(s: string, sub: string)
  {
    exists i :: 0 <= i <= |s| - |sub| && OccursAt(s, sub, i)
  }

  /** `s.startswith(prefix)`. */
  predicate StartsWith(s: string, prefix: string)
  {
    |prefix| <= |s| && s[..|prefix|] == prefix
  }

  /** The leftmost occurrence of `sub` in `s` at or after `from`. */
  function FindFrom(s: string, sub: string, from: nat): (r: Option<nat>)
    requires from <= |s|
    ensures r.Some? ==> from <= r.value && OccursAt(s, sub, r.value)
    decreases |s| - from
  {
    if OccursAt(s, sub, from) then Some(from)
    else if from == |s| then None
    else FindFrom(s, sub, from + 1)
  }

  /** `FindFrom` skips no occurrence. */
  lemma {:induction false} FindFromIsLeftmost(s: string, sub: string, from: nat)
    requires from <= |s|
    ensures FindFrom(s, sub, from).Some? ==>
              forall k: nat :: from <= k < FindFrom(s, sub, from).value ==> !OccursAt(s, sub, k)
    ensures FindFrom(s, sub, from).None? ==> forall k: nat :: from <= k ==> !OccursAt(s, sub, k)
    decreases |s| - from
  {
    if !OccursAt(s, sub, from) && from < |s| {
      FindFromIsLeftmost(s, sub, from + 1);
    }
  }

  /** `s.find(sub)`, with `None` for Python's -1. */
  function Find(s: string, sub: string): (r: Option<nat>)
    ensures r.Some? ==> OccursAt(s, sub, r.value)
  {
    FindFrom(s, sub, 0)
  }

  /** `Find` succeeds exactly when `sub` occurs, and then at the leftmost occurrence. */
  lemma FindIsLeftmost(s: string, sub: string)
    ensures Find(s, sub).Some? <==> Contains(s, sub)
    ensures Find(s, sub).Some? ==> forall k: nat :: k < Find(s, sub).value ==> !OccursAt(s, sub, k)
  {
    FindFromIsLeftmost(s, sub, 0);
    if Find(s, sub).Some? {
      assert 0 <= Find(s, sub).value <= |s| - |sub| && OccursAt(s, sub, Find(s, sub).value);
    }
  }

  /** The first occurrence at `i`: nothing before it, one at it. */
  lemma FindAt(s: string, sub: string, i: nat)
    requires OccursAt(s, sub, i) && forall k: nat :: k < i ==> !OccursAt(s, sub, k)
    ensures Find(s, sub) == Some(i)
  {
    FindIsLeftmost(s, sub);
  }

  /** The pieces of `s` around `sep`, the inverse of `Join`. */
  function Join(pieces: seq<string>, sep: string): string
    requires |pieces| >= 1
  {
    if |pieces| == 1 then pieces[0] else pieces[0] + sep + Join(pieces[1..], sep)
  }

  /**
   * `s.split(sep)` for a non-empty separator: cut at each leftmost,
   * non-overlapping occurrence of `sep`, scanning from the left.
   */
  function Split(s: string, sep: string): (r: seq<string>)
    requires sep != []
    ensures |r| >= 1
    decreases |s|
  {
    match Find(s, sep)
    case None => [s]
    case Some(i) => [s[..i]] + Split(s[i + |sep|..], sep)
  }

  /** Splitting loses nothing: joining the pieces with `sep` gives `s` back. */
  lemma {:induction false} SplitJoins(s: string, sep: string)
    requires sep != []
    ensures Join(Split(s, sep), sep) == s
    decreases |s|
  {
    match Find(s, sep)
    case None =>
    case Some(i) =>
      var rest := Split(s[i + |sep|..], sep);
      var pieces := [s[..i]] + rest;
      assert Split(s, sep) == pieces;
      assert pieces[1..] == rest;
      assert Join(pieces, sep) == s[..i] + sep + Join(rest, sep);
      SplitJoins(s[i + |sep|..], sep);
      assert s == s[..i] + sep + s[i + |sep|..];
  }

  /** No piece of `s.split(sep)` contains `sep`. */
  lemma {:induction false} SplitPiecesAvoidSeparator(s: string, sep: string)
    requires sep != []
    ensures forall k :: 0 <= k < |Split(s, sep)| ==> !Contains(Split(s, sep)[k], sep)
    decreases |s|
  {
    FindIsLeftmost(s, sep);
    match Find(s, sep)
    case None =>
    case Some(i) =>
      var head := s[..i];
      assert !Contains(head, sep) by {
        forall k | 0 <= k <= |head| - |sep| && OccursAt(head, sep, k)
          ensures false
        {
          assert k + |sep| <= i;
          assert s[k..k + |sep|] == head[k..k + |sep|];
          assert OccursAt(s, sep, k);
        }
      }
      SplitPiecesAvoidSeparator(s[i + |sep|..], sep);
  }

  /** `s.lstrip()`: `s` without its leading whitespace. */
  function TrimStart(s: string): (r: string)
    ensures |r| <= |s| && r == s[|s| - |r|..]
    ensures r == [] || !IsSpace(r[0])
  {
    if s != [] && IsSpace(s[0]) then TrimStart(s[1..]) else s
  }

  /** `s.rstrip()`: `s` without its trailing whitespace. */
  function TrimEnd(s: string): (r: string)
    ensures |r| <= |s| && r == s[..|r|]
    ensures r == [] || !IsSpace(r[|r| - 1])
  {
    if s != [] && IsSpace(s[|s| - 1]) then TrimEnd(s[..|s| - 1]) else s
  }

  /**
   * `r` is the slice of `s` starting at `a` with only whitespace outside it,
   * and `r` neither starts nor ends with whitespace.
   */
  predicate TrimmedAt(s: string, r: string, a: nat)
  {
    && a + |r| <= |s| && r == s[a..a + |r|]
    && AllSpace(s, 0, a) && AllSpace(s, a + |r|, |s|)
    && (r == [] || (!IsSpace(r[0]) && !IsSpace(r[|r| - 1])))
  }

  /** Every character of `s` from `lo` up to `hi` is whitespace. */
  predicate AllSpace(s: string, lo: int, hi: int)
  {
    forall k :: lo <= k < hi && 0 <= k < |s| ==> IsSpace(s[k])
  }

  /** `r` is `s` with its leading and trailing whitespace removed. */
  predicate IsStripOf(s: string, r: string)
  {
    exists a: nat :: a <= |s| && TrimmedAt(s, r, a)
  }

  /** `s.strip()`: `s` without its leading and trailing whitespace. */
  function Strip(s: string): (r: string)
    ensures IsStripOf(s, r)
    ensures r == [] || (!IsSpace(r[0]) && !IsSpace(r[|r| - 1]))
    ensures |r| <= |s|
    ensures (s == [] || (!IsSpace(s[0]) && !IsSpace(s[|s| - 1]))) ==> r == s
  {
    var t := TrimStart(s);
    assert t != [] ==> t[|t| - 1] == s[|s| - 1];
    TrimBoth(s);
    TrimEnd(t)
  }

  /** Only whitespace is removed from the back. */
  lemma {:induction false} TrimEndDropsSpaces(s: string)
    ensures forall k :: |TrimEnd(s)| <= k < |s| ==> IsSpace(s[k])
  {
    if s != [] && IsSpace(s[|s| - 1]) {
      TrimEndDropsSpaces(s[..|s| - 1]);
    }
  }

  /** There is one stripped form of a text: `IsStripOf` determines `strip()`'s result. */
  lemma StripUnique(s: string, r1: string, r2: string)
    requires IsStripOf(s, r1) && IsStripOf(s, r2)
    ensures r1 == r2
  {
    var a1: nat :| a1 <= |s| && TrimmedAt(s, r1, a1);
    var a2: nat :| a2 <= |s| && TrimmedAt(s, r2, a2);
    if r1 == [] || r2 == [] {
      EmptyStripAllSpace(s, r1, r2, a1, a2);
      EmptyStripAllSpace(s, r2, r1, a2, a1);
    } else {
      var e1, e2 := a1 + |r1| - 1, a2 + |r2| - 1;
      assert s[a1] == r1[0] && s[e1] == r1[|r1| - 1];
      assert s[a2] == r2[0] && s[e2] == r2[|r2| - 1];
      assert a1 == a2;
      assert e1 == e2;
    }
  }

  /** When one stripped form is empty, the text is all whitespace, so the other is empty too. */
  lemma EmptyStripAllSpace(s: string, r1: string, r2: string, a1: nat, a2: nat)
    requires TrimmedAt(s, r1, a1) && TrimmedAt(s, r2, a2) && r1 == []
    ensures r2 == []
  {
    assert forall k :: 0 <= k < |s| ==> IsSpace(s[k]) by {
      forall k | 0 <= k < |s| ensures IsSpace(s[k]) {
        if k >= a1 {
          assert a1 + |r1| <= k;
        }
      }
    }

  }

  /** `lstrip` then `rstrip` trims `s` at the length `lstrip` removed. */
  lemma TrimBoth(s: string)
    ensures TrimmedAt(s, TrimEnd(TrimStart(s)), |s| - |TrimStart(s)|)
  {
    TrimBothSlice(s);
    TrimBothFront(s);
    TrimBothBack(s);
    TrimBothEnds(s);
  }

  // The four parts of `TrimBoth`, each proved on its own.

  lemma TrimBothSlice(s: string)
    ensures var t := TrimStart(s); var r := TrimEnd(t); var a := |s| - |t|;
      a + |r| <= |s| && r == s[a..a + |r|]
  {
    var t := TrimStart(s);
    var r := TrimEnd(t);
    SliceOfSuffix(s, |s| - |t|, |r|);
  }

  lemma TrimBothFront(s: string)
    ensures AllSpace(s, 0, |s| - |TrimStart(s)|)
  {
    TrimStartDropsSpaces(s);
  }

  lemma TrimBothBack(s: string)
    ensures var t := TrimStart(s); var r := TrimEnd(t); AllSpace(s, |s| - |t| + |r|, |s|)
  {
    var t := TrimStart(s);
    var r := TrimEnd(t);
    TrimEndDropsSpaces(t);
    SuffixSpaces(s, |s| - |t|, |r|);
  }

  lemma TrimBothEnds(s: string)
    ensures var t := TrimStart(s); var r := TrimEnd(t); r == [] || (!IsSpace(r[0]) && !IsSpace(r[|r| - 1]))
  {
    var t := TrimStart(s);
    var r := TrimEnd(t);
    assert r != [] ==> r[0] == t[0];
  }

  /** Whitespace at the end of the suffix from `a` is whitespace at the end of `s`. */
  lemma SuffixSpaces(s: string, a: nat, n: nat)
    requires a + n <= |s| && AllSpace(s[a..], n, |s| - a)
    ensures AllSpace(s, a + n, |s|)
  {
    forall k | a + n <= k < |s|
      ensures IsSpace(s[k])
    {
      assert s[k] == s[a..][k - a];
    }
  }

  /** The first `n` characters of the suffix from `a`. */
  lemma SliceOfSuffix(s: string, a: nat, n: nat)
    requires a + n <= |s|
    ensures s[a..][..n] == s[a..a + n]
  {
  }

  /** Only whitespace is removed from the front. */
  lemma {:induction false} TrimStartDropsSpaces(s: string)
    ensures forall k :: 0 <= k < |s| - |TrimStart(s)| ==> IsSpace(s[k])
  {
    if s != [] && IsSpace(s[0]) {
      TrimStartDropsSpaces(s[1..]);
    }
  }

  /** A string of whitespace alone strips to the empty string. */
  lemma StripAllSpace(s: string)
    requires forall k :: 0 <= k < |s| ==> IsSpace(s[k])
    ensures Strip(s) == []
  {
    TrimStartDropsSpaces(s);
  }

  /** `s.replace(c, '')` for a one-character `c`. */
  function Without(s: string, c: char): (r: string)
    ensures c !in r
    ensures c !in s ==> r == s
    ensures forall x :: x != c ==> multiset(r)[x] == multiset(s)[x]
  {
    if s == [] then []
    else
      assert s == [s[0]] + s[1..];
      (if s[0] == c then [] else [s[0]]) + Without(s[1..], c)
  }

  /** Removing a character works piece by piece, so the characters kept stay in their order. */
  lemma {:induction false} WithoutConcat(a: string, b: string, c: char)
    ensures Without(a + b, c) == Without(a, c) + Without(b, c)
  {
    if a == [] {
      assert a + b == b;
    } else {
      var ab := a + b;
      var head: string := if a[0] == c then [] else [a[0]];
      calc {
        Without(ab, c);
        == { assert ab[0] == a[0] && ab[1..] == a[1..] + b; }
        head + Without(a[1..] + b, c);
        == { WithoutConcat(a[1..], b, c); }
        head + (Without(a[1..], c) + Without(b, c));
        == 
        (head + Without(a[1..], c)) + Without(b, c);
      }
    }
  }

  /** Python's `a <= b` on strings: lexicographic by code point, a prefix first. */
  predicate LexLe(a: string, b: string)
  {
    if a == [] then true
    else if b == [] then false
    else if a[0] != b[0] then a[0] < b[0]
    else LexLe(a[1..], b[1..])
  }

  lemma {:induction false} LexLeTotal(a: string, b: string)
    ensures LexLe(a, b) || LexLe(b, a)
  {
    if a != [] && b != [] && a[0] == b[0] {
      LexLeTotal(a[1..], b[1..]);
    }
  }

  lemma {:induction false} LexLeTransitive(a: string, b: string, c: string)
    requires LexLe(a, b) && LexLe(b, c)
    ensures LexLe(a, c)
  {
    if a != [] && b != [] && c != [] && a[0] == b[0] && b[0] == c[0] {
      LexLeTransitive(a[1..], b[1..], c[1..]);
    }
  }

  lemma {:induction false} LexLeAntisymmetric(a: string, b: string)
    requires LexLe(a, b) && LexLe(b, a)
    ensures a == b
  {
    if a != [] && b != [] {
      LexLeAntisymmetric(a[1..], b[1..]);
      assert a == [a[0]] + a[1..] && b == [b[0]] + b[1..];
    }
  }

  /** `s.split(sep)` yields at least two pieces exactly when `sep` occurs in `s`. */
  lemma SplitHasSecondPiece(s: string, sep: string)
    requires sep != []
    ensures |Split(s, sep)| >= 2 <==> Contains(s, sep)
  {
    FindIsLeftmost(s, sep);
  }

  /** Splitting a string that begins with the separator yields an empty first piece. */
  lemma SplitAfterLeadingSeparator(s: string, sep: string)
    requires sep != []
    ensures Split(sep + s, sep) == [""] + Split(s, sep)
  {
    var t := sep + s;
    assert OccursAt(t, sep, 0);
    assert (sep + s)[|sep|..] == s;
  }

  /** The first piece of `s.split(sep)` and what follows the first separator. */
  lemma {:induction false} SplitFirstPiece(s: string, sep: string, i: nat)
    requires sep != [] && Find(s, sep) == Some(i)
    ensures Split(s, sep) == [s[..i]] + Split(s[i + |sep|..], sep)
  {
  }

  /** When `sep` does not occur, `s.split(sep)` is `[s]`. */
  lemma SplitWithoutSeparator(s: string, sep: string)
    requires sep != [] && !Contains(s, sep)
    ensures Split(s, sep) == [s]
  {
    FindIsLeftmost(s, sep);
  }
}
