/**
 * `DependencyController.get_available_versions`, past the registry fetch:
 * the release names of a package, without those containing `r`, newest
 * (greatest as a string) first.
 */
module Releases {

  import opened PyText

  /** The dictionary `get_available_versions` returns: `{'versions': ..., 'status': ...}`. */
  datatype VersionsReply = VersionsReply(versions: seq<string>, status: string)

  /** Release names without an `r` (`'r' not in release`), in their original order. */
  function Kept(releases: seq<string>): (kept: seq<string>)
    ensures forall v :: v in kept ==> v in releases && 'r' !in v
    ensures forall v :: v in releases && 'r' !in v ==> v in kept
  {
    if releases == [] then []
    else Kept(releases[..|releases| - 1])
         + (if 'r' !in releases[|releases| - 1] then [releases[|releases| - 1]] else [])
  }

  /** `versions` is in the order `sort(reverse=True)` leaves it in. */
  predicate Descending(versions: seq<string>)
  {
    forall i, j :: 0 <= i < j < |versions| ==> LexLe(versions[j], versions[i])
  }

  /**
   * `list.sort(reverse=True)` on a list of strings, done in place by
   * insertion.
   */
  method SortDescending(a: array<string>)
    modifies a
    ensures Descending(a[..])
    ensures multiset(a[..]) == multiset(old(a[..]))
  {
    if a.Length == 0 {
      return;
    }
    var i := 1;
    while i < a.Length
      invariant 1 <= i <= a.Length
      invariant Descending(a[..i])
      invariant multiset(a[..]) == multiset(old(a[..]))
    {
      InsertDescending(a, i);
      i := i + 1;
    }
    assert a[..i] == a[..];
  }

  /** One insertion step: `a[i]` moves left past the smaller names before it. */
  method InsertDescending(a: array<string>, i: nat)
    requires 1 <= i < a.Length && Descending(a[..i])
    modifies a
    ensures Descending(a[..i + 1])
    ensures multiset(a[..]) == multiset(old(a[..]))
  {
    InsertionStart(a[..], i);
    var j := i;
    while 0 < j && !LexLe(a[j], a[j - 1])
      invariant 0 <= j <= i
      invariant Inserting(a[..], i, j)
      invariant multiset(a[..]) == multiset(old(a[..]))
    {
      ghost var before := a[..];
      InsertionSwap(before, i, j);
      a[j - 1], a[j] := a[j], a[j - 1];
      assert a[..] == before[j - 1 := before[j]][j := before[j - 1]];
      j := j - 1;
    }
    InsertionDone(a[..], i, j);
  }

  /**
   * While `s[j]` moves left, the first `i + 1` names are in descending order
   * apart from position `j`, and `s[j]` is at least every name after it.
   */
  predicate Inserting(s: seq<string>, i: nat, j: nat)
    requires j <= i < |s|
  {
    && (forall p, q :: 0 <= p < q <= i && p != j && q != j ==> LexLe(s[q], s[p]))
    && (forall q :: j < q <= i ==> LexLe(s[q], s[j]))
  }

  lemma InsertionStart(s: seq<string>, i: nat)
    requires 1 <= i < |s| && Descending(s[..i])
    ensures Inserting(s, i, i)
  {
    forall p, q | 0 <= p < q < i ensures LexLe(s[q], s[p]) {
      assert s[..i][p] == s[p] && s[..i][q] == s[q];
    }
  }

  lemma InsertionSwap(s: seq<string>, i: nat, j: nat)
    requires 0 < j <= i < |s| && Inserting(s, i, j) && !LexLe(s[j], s[j - 1])
    ensures Inserting(s[j - 1 := s[j]][j := s[j - 1]], i, j - 1)
  {
    var t := s[j - 1 := s[j]][j := s[j - 1]];
    LexLeTotal(s[j], s[j - 1]);
    forall p, q | 0 <= p < q <= i && p != j - 1 && q != j - 1 ensures LexLe(t[q], t[p]) {
      if q == j {
        assert LexLe(s[j - 1], s[p]);
      } else if p == j {
        assert LexLe(s[q], s[j - 1]);
      } else {
        assert LexLe(s[q], s[p]);
      }
    }
    forall q | j - 1 < q <= i ensures LexLe(t[q], t[j - 1]) {
      if q > j {
        assert LexLe(s[q], s[j]);
      }
    }
  }

  lemma InsertionDone(s: seq<string>, i: nat, j: nat)
    requires j <= i < |s| && Inserting(s, i, j) && (j == 0 || LexLe(s[j], s[j - 1]))
    ensures Descending(s[..i + 1])
  {
    forall p, q | 0 <= p < q <= i ensures LexLe(s[q], s[p]) {
      if q == j && p < j - 1 {
        LexLeTransitive(s[j], s[j - 1], s[p]);
      }
    }
    var prefix := s[..i + 1];
    forall p, q | 0 <= p < q < |prefix| ensures LexLe(prefix[q], prefix[p]) {
      assert prefix[p] == s[p] && prefix[q] == s[q];
    }
  }

  /**
   * `get_available_versions` as its loop evidently means it: every release
   * key is looked at, the kept ones are sorted once, and the reply is
   * a success.
   */
  method AvailableVersions(releases: seq<string>) returns (reply: VersionsReply)
    ensures reply.status == "success"
    ensures forall v :: v in reply.versions ==> v in releases && 'r' !in v
    ensures Descending(reply.versions)
    ensures multiset(reply.versions) == multiset(Kept(releases))
  {
    var versions: seq<string> := [];
    var i := 0;
    while i < |releases|
      invariant 0 <= i <= |releases|
      invariant versions == Kept(releases[..i])
    {
      assert releases[..i + 1][..i] == releases[..i];
      var release := releases[i];
      if 'r' !in release {
        versions := versions + [release];
      }
      i := i + 1;
    }
    assert releases[..i] == releases;
    var sorted := new string[|versions|](k requires 0 <= k < |versions| => versions[k]);
    assert sorted[..] == versions;
    SortDescending(sorted);
    reply := VersionsReply(sorted[..], "success");
    assert forall v :: v in reply.versions ==> v in multiset(versions);
  }

  /**
   * `get_available_versions` as written: the `sort` and the `return` sit
   * inside the loop, so the reply is built from the first release key
   * alone; with no release at all the loop body never runs and the reply
   * is `failure`.
   */
  function AvailableVersionsAsWritten(releases: seq<string>): (reply: VersionsReply)
    ensures reply.status == "failure" <==> releases == []
    ensures |reply.versions| <= 1
    ensures forall v <- reply.versions :: releases != [] && v == releases[0] && 'r' !in v
  {
    if releases == [] then VersionsReply([], "failure")
    else if 'r' !in releases[0] then VersionsReply([releases[0]], "success")
    else VersionsReply([], "success")
  }

  /**
   * With releases `2.0` and `1.0`, the only reply meeting the intended
   * contract lists `2.0, 1.0`; the reply as written lists `2.0` alone.
   */
  lemma AsWrittenDropsLaterReleases(intended: VersionsReply)
    requires Descending(intended.versions)
    requires multiset(intended.versions) == multiset(Kept(["2.0", "1.0"]))
    ensures intended.versions == ["2.0", "1.0"]
    ensures AvailableVersionsAsWritten(["2.0", "1.0"]).versions == ["2.0"]
  {
    var two: string, one: string := "2.0", "1.0";
    var first: seq<string>, both: seq<string> := [two], [two, one];
    assert 'r' !in two && 'r' !in one;
    assert Kept(first) == first by {
      assert first[..0] == [];
    }
    assert Kept(both) == both by {
      assert both[..1] == first;
    }
    assert LexLe(one, two) by {
      assert one[0] == '1' && two[0] == '2';
    }
    assert Descending([two, one]);
    DescendingPermutationUnique(intended.versions, ["2.0", "1.0"]);
  }

  /**
   * Sorting is determined: two descending orders of the same release names
   * are the same list.
   */
  lemma {:induction false} DescendingPermutationUnique(xs: seq<string>, ys: seq<string>)
    requires Descending(xs) && Descending(ys) && multiset(xs) == multiset(ys)
    ensures xs == ys
    decreases |xs|
  {
    if xs == [] {
      assert |multiset(ys)| == 0;
    } else {
      SameGreatest(xs, ys);
      SameRest(xs, ys);
      DescendingTail(xs);
      DescendingTail(ys);
      DescendingPermutationUnique(xs[1..], ys[1..]);
      assert xs == [xs[0]] + xs[1..] && ys == [ys[0]] + ys[1..];
    }
  }

  /** Two descending orders of the same names start with the same name. */
  lemma SameGreatest(xs: seq<string>, ys: seq<string>)
    requires Descending(xs) && Descending(ys) && multiset(xs) == multiset(ys) && xs != []
    ensures ys != [] && xs[0] == ys[0]
  {
    assert xs[0] in multiset(ys);
    assert ys[0] in multiset(xs);
    HeadIsGreatest(ys, xs[0]);
    HeadIsGreatest(xs, ys[0]);
    LexLeAntisymmetric(xs[0], ys[0]);
  }

  /** Removing the same first name from two permutations leaves two permutations. */
  lemma SameRest(xs: seq<string>, ys: seq<string>)
    requires multiset(xs) == multiset(ys) && xs != [] && ys != [] && xs[0] == ys[0]
    ensures multiset(xs[1..]) == multiset(ys[1..])
  {
    var x := xs[0];
    assert xs == [x] + xs[1..];
    assert ys == [x] + ys[1..];
    assert multiset(xs[1..]) == multiset(xs) - multiset{x};
    assert multiset(ys[1..]) == multiset(ys) - multiset{x};
  }

  lemma HeadIsGreatest(xs: seq<string>, v: string)
    requires Descending(xs) && v in xs
    ensures LexLe(v, xs[0])
  {
    var k :| 0 <= k < |xs| && xs[k] == v;
    if k == 0 {
      LexLeTotal(v, v);
    }
  }

  lemma DescendingTail(xs: seq<string>)
    requires Descending(xs) && xs != []
    ensures Descending(xs[1..])
  {
    forall i, j | 0 <= i < j < |xs| - 1 ensures LexLe(xs[1..][j], xs[1..][i]) {
      assert xs[1..][j] == xs[j + 1] && xs[1..][i] == xs[i + 1];
    }
  }
}
