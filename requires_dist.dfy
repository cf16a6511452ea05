/**
 * `DependencyController.get_requirements`, past the registry fetch: the
 * `requires_dist` entries of a release (Python Core Metadata, PEP 345,
 * "Requires-Dist (multiple use)") become a dictionary of requirement records
 * keyed by package name.
 */
module RequiresDist {

  import opened Wrappers
  import opened PyText
  import opened PyData

  /**
   * `re.match(r"^(.+?)\s\(([^)]*)\)", entry)` succeeds with group 1 equal to
   * `entry[..n]`: a name of at least one character without a line break, one
   * whitespace character, an opening parenthesis, and a closing parenthesis
   * somewhere after it.
   */
  predicate MatchesAt(entry: string, n: nat)
  {
    1 <= n && n + 2 <= |entry| && '\n' !in entry[..n]
    && IsSpace(entry[n]) && entry[n + 1] == '(' && ')' in entry[n + 2..]
  }

  /** The lazy `.+?` tries name lengths from `n` upwards and keeps the first that matches. */
  function LazyNameLength(entry: string, n: nat): (r: Option<nat>)
    requires 1 <= n
    ensures r.Some? ==> n <= r.value && MatchesAt(entry, r.value)
    ensures r.Some? ==> forall m: nat :: n <= m < r.value ==> !MatchesAt(entry, m)
    ensures r.None? ==> forall m: nat :: n <= m ==> !MatchesAt(entry, m)
    decreases |entry| - n
  {
    if n + 2 > |entry| then None
    else if MatchesAt(entry, n) then Some(n)
    else LazyNameLength(entry, n + 1)
  }

  /** The index in `s` of the first `c`. */
  function IndexOf(s: string, c: char): (i: nat)
    requires c in s
    ensures i < |s| && s[i] == c && c !in s[..i]
  {
    if s[0] == c then 0 else 1 + IndexOf(s[1..], c)
  }

  /** `(match.group(1), match.group(2))`, or `None` when the pattern does not match. */
  function Match(entry: string): (r: Option<(string, string)>)
    ensures r.None? ==> forall n: nat :: 1 <= n ==> !MatchesAt(entry, n)
    ensures r.Some? ==>
      var (name, specifier) := r.value;
      && 1 <= |name| && |name| + 2 <= |entry| && entry[..|name|] == name && '\n' !in name
      && IsSpace(entry[|name|]) && entry[|name| + 1] == '('
      && ')' !in specifier
  {
    match LazyNameLength(entry, 1)
    case None => None
    case Some(n) =>
      var rest := entry[n + 2..];
      var close := IndexOf(rest, ')');
      assert entry[n + 2..n + 2 + close] == rest[..close];
      Some((entry[..n], rest[..close]))
  }

  /**
   * `Match` is the regular expression: it succeeds exactly when some name
   * length matches, group 1 is the SHORTEST matching name, and group 2 is the
   * text between the opening parenthesis and the first closing one.
   */
  lemma MatchIsLazyRegex(entry: string)
    ensures Match(entry).Some? <==> exists n: nat :: MatchesAt(entry, n)
    ensures Match(entry).Some? ==>
      var (name, specifier) := Match(entry).value;
      var n := |name|;
      && MatchesAt(entry, n)
      && entry[..n] == name
      && (forall m: nat :: m < n ==> !MatchesAt(entry, m))
      && n + 2 + |specifier| < |entry|
      && entry[n + 2..n + 2 + |specifier|] == specifier
      && entry[n + 2 + |specifier|] == ')'
      && ')' !in specifier
  {
    if Match(entry).None? {
      forall n: nat ensures !MatchesAt(entry, n) {
        if n == 0 {
        }
      }
    }
  }

  /** Entries that mention `extra` anywhere are skipped. */
  predicate IsExtra(entry: string)
  {
    Contains(entry, "extra")
  }

  /** The record `get_requirements` builds for one requirement. */
  function RequirementRecord(name: string, specifier: string): Record
  {
    map["package_name" := Text(name), "curr_version" := NoneValue, "list_versions" := TextList([]),
        "reqd_version" := Text(specifier), "flag" := Flag(false)]
  }

  /** What the loop body does with one entry. */
  datatype Entry = Skipped | Unmatched | Named(name: string, specifier: string)

  function Classify(entry: string): Entry
  {
    if IsExtra(entry) then Skipped
    else
      match Match(entry)
      case None => Unmatched
      case Some((name, specifier)) => Named(name, specifier)
  }

  /**
   * The loop over `requires_dist`, on the classified entries: an entry that
   * does not match the pattern raises (`match` is `None`), which ends the call
   * with the error reply; a later entry with the same name overwrites.
   */
  function Collect(kinds: seq<Entry>): Reply<Dict<Record>>
  {
    if kinds == [] then Success(EmptyDict())
    else
      match Collect(kinds[..|kinds| - 1])
      case Failure => Failure
      case Success(found) =>
        match kinds[|kinds| - 1]
        case Skipped => Success(found)
        case Unmatched => Failure
        case Named(name, specifier) => Success(Put(found, name, RequirementRecord(name, specifier)))
  }

  function Classified(entries: seq<string>): (kinds: seq<Entry>)
    ensures |kinds| == |entries| && forall i :: 0 <= i < |entries| ==> kinds[i] == Classify(entries[i])
  {
    seq(|entries|, i requires 0 <= i < |entries| => Classify(entries[i]))
  }

  function Requirements(entries: seq<string>): Reply<Dict<Record>>
  {
    Collect(Classified(entries))
  }

  /** The reply of `get_requirements` for a decoded `requires_dist` (absent is `None`). */
  function RequirementsReply(requiresDist: Option<seq<string>>): Reply<Dict<Record>>
  {
    match requiresDist
    case None => Success(EmptyDict())
    case Some(entries) => if entries == [] then Success(EmptyDict()) else Requirements(entries)
  }

  /**
   * What the registry request of `get_requirements` yields: the release's
   * decoded `requires_dist`, or a failure (a status other than 200, a timeout,
   * a body that is not JSON), which the call turns into its error reply.
   */
  datatype Fetch = Fetched(requiresDist: Option<seq<string>>) | FetchFailed

  /** The reply of `get_requirements` for a registry outcome. */
  function FetchedRequirements(fetch: Fetch): Reply<Dict<Record>>
  {
    match fetch
    case FetchFailed => Failure
    case Fetched(requiresDist) => RequirementsReply(requiresDist)
  }

  /** Once an entry has made the loop raise, later entries cannot undo it. */
  lemma {:induction false} FailureIsFinal(kinds: seq<Entry>, i: nat)
    requires i <= |kinds| && Collect(kinds[..i]).Failure?
    ensures Collect(kinds).Failure?
    decreases |kinds| - i
  {
    if i < |kinds| {
      assert kinds[..i + 1][..i] == kinds[..i];
      FailureIsFinal(kinds, i + 1);
    } else {
      assert kinds[..i] == kinds;
    }
  }

  /** `get_requirements` from the decoded `requires_dist` onwards. */
  method GetRequirements(requiresDist: Option<seq<string>>) returns (r: Reply<Dict<Record>>)
    ensures r == RequirementsReply(requiresDist)
  {
    if requiresDist.None? || requiresDist.value == [] {
      return Success(EmptyDict());
    }
    var entries := requiresDist.value;
    ghost var kinds := Classified(entries);
    var requirements: Dict<Record> := EmptyDict();
    var i := 0;
    while i < |entries|
      invariant 0 <= i <= |entries|
      invariant Collect(kinds[..i]) == Success(requirements)
    {
      var dependency := entries[i];
      assert kinds[..i + 1][..i] == kinds[..i];
      FindIsLeftmost(dependency, "extra");
      if Find(dependency, "extra").None? {
        var matched := Match(dependency);
        if matched.None? {
          FailureIsFinal(kinds, i + 1);
          return Failure;
        }
        var (packageName, specifier) := matched.value;
        requirements := Put(requirements, packageName, RequirementRecord(packageName, specifier));
      }
      i := i + 1;
    }
    assert kinds[..i] == kinds;
    r := Success(requirements);
  }

  /** Entry `i` is a non-extra entry that matches with package name `name`. */
  predicate NamedAt(entries: seq<string>, i: int, name: string)
  {
    0 <= i < |entries| && Classify(entries[i]).Named? && Classify(entries[i]).name == name
  }

  /** An empty or missing `requires_dist` is a success with no requirements. */
  lemma EmptyRequiresDist()
    ensures RequirementsReply(None) == Success(EmptyDict())
    ensures RequirementsReply(Some([])) == Success(EmptyDict())
  {
  }

  /** The loop raises exactly when some entry is unmatched. */
  lemma {:induction false} CollectFailIff(kinds: seq<Entry>)
    ensures Collect(kinds).Failure? <==> Unmatched in kinds
  {
    if kinds != [] {
      var init := kinds[..|kinds| - 1];
      CollectFailIff(init);
      assert kinds == init + [kinds[|kinds| - 1]];
    }
  }

  /** The call fails exactly when some entry without `extra` does not match the pattern. */
  lemma RequirementsFailIff(entries: seq<string>)
    ensures Requirements(entries).Failure? <==>
            exists i :: 0 <= i < |entries| && !IsExtra(entries[i]) && Match(entries[i]).None?
  {
    var kinds := Classified(entries);
    CollectFailIff(kinds);
    if Unmatched in kinds {
      var i :| 0 <= i < |kinds| && kinds[i] == Unmatched;
      assert !IsExtra(entries[i]) && Match(entries[i]).None?;
    }
    if exists i :: 0 <= i < |entries| && !IsExtra(entries[i]) && Match(entries[i]).None? {
      var i :| 0 <= i < |entries| && !IsExtra(entries[i]) && Match(entries[i]).None?;
      assert kinds[i] == Unmatched;
    }
  }

  /** Entry kind `i` names package `name`. */
  predicate NamesAt(kinds: seq<Entry>, i: int, name: string)
  {
    0 <= i < |kinds| && kinds[i].Named? && kinds[i].name == name
  }

  /** On success the keys are exactly the names the entries carry. */
  lemma {:induction false} CollectKeys(kinds: seq<Entry>, name: string)
    requires Collect(kinds).Success?
    ensures name in Collect(kinds).message.entries <==> exists i :: NamesAt(kinds, i, name)
  {
    if kinds != [] {
      var init := kinds[..|kinds| - 1];
      var last := |kinds| - 1;
      CollectKeys(init, name);
      if exists i :: NamesAt(kinds, i, name) {
        var i :| NamesAt(kinds, i, name);
        if i < last {
          assert NamesAt(init, i, name);
        }
      }
      if name in Collect(kinds).message.entries && name !in Collect(init).message.entries {
        assert NamesAt(kinds, last, name);
      }
      if exists i :: NamesAt(init, i, name) {
        var i :| NamesAt(init, i, name);
        assert NamesAt(kinds, i, name);
      }
    }
  }

  /** Each key holds the record built from the LAST entry with that name. */
  lemma {:induction false} CollectLastWins(kinds: seq<Entry>, i: int, name: string)
    requires Collect(kinds).Success?
    requires NamesAt(kinds, i, name)
    requires forall j :: i < j < |kinds| ==> !NamesAt(kinds, j, name)
    ensures name in Collect(kinds).message.entries
    ensures Collect(kinds).message.entries[name] == RequirementRecord(name, kinds[i].specifier)
  {
    var init := kinds[..|kinds| - 1];
    var last := |kinds| - 1;
    if i < last {
      assert NamesAt(init, i, name);
      forall j | i < j < |init| ensures !NamesAt(init, j, name) {
        assert !NamesAt(kinds, j, name);
      }
      CollectLastWins(init, i, name);
      assert !NamesAt(kinds, last, name);
    }
  }

  /** The keys are exactly the names of the entries without `extra` that match the pattern. */
  lemma RequirementsKeys(entries: seq<string>, name: string)
    requires Requirements(entries).Success?
    ensures name in Requirements(entries).message.entries <==> exists i :: NamedAt(entries, i, name)
  {
    var kinds := Classified(entries);
    CollectKeys(kinds, name);
    if exists i :: NamesAt(kinds, i, name) {
      var i :| NamesAt(kinds, i, name);
      assert NamedAt(entries, i, name);
    }
    if exists i :: NamedAt(entries, i, name) {
      var i :| NamedAt(entries, i, name);
      assert NamesAt(kinds, i, name);
    }
  }

  /**
   * Each key holds the record of the LAST entry with that name: `reqd_version`
   * is the text inside its first parentheses, `curr_version` is `None`,
   * `list_versions` is empty and `flag` is false.
   */
  lemma RequirementsLastWins(entries: seq<string>, i: int, name: string)
    requires Requirements(entries).Success?
    requires NamedAt(entries, i, name)
    requires forall j :: i < j < |entries| ==> !NamedAt(entries, j, name)
    ensures name in Requirements(entries).message.entries
    ensures Requirements(entries).message.entries[name] == RequirementRecord(name, Classify(entries[i]).specifier)
  {
    var kinds := Classified(entries);
    forall j | i < j < |kinds| ensures !NamesAt(kinds, j, name) {
      assert !NamedAt(entries, j, name);
    }
    CollectLastWins(kinds, i, name);
  }
}
