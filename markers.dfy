/**
 * `DependencyController.process_packages`: requirement records are filtered
 * on their `condition` text against the user's `python_version`, a partial,
 * string-based reading of the environment markers of PEP 508 (section
 * "Environment Markers").
 */
module Markers {

  import opened Wrappers
  import opened PyText
  import opened PyData

  /** What the loop body does with one package. */
  datatype Verdict = Keep | Drop | Raise

  /**
   * The verdict on one package record: kept unless a set `python_version`
   * meets a `condition` that names another Python version or an extra; a
   * missing key, a condition that is not text, and a `python` condition
   * without `=` raise.
   */
  function Decide(userParams: Record, package: Record): (v: Verdict)
    ensures "python_version" !in userParams ==> v == Raise
    ensures "python_version" in userParams && !Truthy(userParams["python_version"]) ==> v == Keep
    ensures v == Drop ==> "condition" in package && package["condition"].Text? && package["condition"].text != []
  {
    if "python_version" !in userParams then Raise
    else if !Truthy(userParams["python_version"]) then Keep
    else if "condition" !in package then Raise
    else if !Truthy(package["condition"]) then Keep
    else if !package["condition"].Text? then Raise
    else ConditionVerdict(Strip(package["condition"].text), userParams["python_version"])
  }

  /** The verdict on a stripped, non-empty condition once `python_version` is set. */
  function ConditionVerdict(condition: string, pythonVersion: Value): (v: Verdict)
    ensures v != Keep ==> StartsWith(condition, "python") || StartsWith(condition, "extra")
    ensures v == Raise ==> StartsWith(condition, "python") && !Contains(condition, "=")
  {
    SplitHasSecondPiece(condition, "=");
    if StartsWith(condition, "python") then
      var parts := Split(condition, "=");
      if |parts| < 2 then Raise
      else if Text(parts[1]) != pythonVersion then Drop
      else Keep
    else if StartsWith(condition, "extra") then Drop
    else Keep
  }

  /** The verdicts on the first `n` packages, in iteration order. */
  function Verdicts(userParams: Record, packages: Dict<Record>, n: nat): (verdicts: seq<Verdict>)
    requires n <= |packages.keys|
    ensures |verdicts| == n
  {
    if n == 0 then []
    else Verdicts(userParams, packages, n - 1) + [Decide(userParams, packages.entries[packages.keys[n - 1]])]
  }

  lemma {:induction false} VerdictAt(userParams: Record, packages: Dict<Record>, n: nat, i: nat)
    requires i < n <= |packages.keys|
    ensures Verdicts(userParams, packages, n)[i] == Decide(userParams, packages.entries[packages.keys[i]])
  {
    if i < n - 1 {
      VerdictAt(userParams, packages, n - 1, i);
    }
  }

  /** The loop over the first `n` packages; a raising package ends it with the failure reply. */
  function Filtered(packages: Dict<Record>, verdicts: seq<Verdict>, n: nat): Reply<Dict<Record>>
    requires n <= |packages.keys| == |verdicts|
  {
    if n == 0 then Success(EmptyDict())
    else
      match Filtered(packages, verdicts, n - 1)
      case Failure => Failure
      case Success(kept) => FilterStep(kept, packages.keys[n - 1], packages.entries[packages.keys[n - 1]], verdicts[n - 1])
  }

  /** One pass of the loop body on the package `name` with record `package`. */
  function FilterStep(kept: Dict<Record>, name: string, package: Record, verdict: Verdict): Reply<Dict<Record>>
  {
    match verdict
    case Raise => Failure
    case Drop => Success(kept)
    case Keep => Success(Put(kept, name, package))
  }

  lemma FilteredNext(packages: Dict<Record>, verdicts: seq<Verdict>, i: nat, kept: Dict<Record>)
    requires i < |packages.keys| == |verdicts|
    requires Filtered(packages, verdicts, i).Success? && Filtered(packages, verdicts, i).message == kept
    ensures Filtered(packages, verdicts, i + 1) == FilterStep(kept, packages.keys[i], packages.entries[packages.keys[i]], verdicts[i])
  {
  }

  /** The reply of `process_packages`: its `message` on success. */
  function ProcessSpec(userParams: Record, packages: Dict<Record>): Reply<Dict<Record>>
  {
    Filtered(packages, Verdicts(userParams, packages, |packages.keys|), |packages.keys|)
  }

  lemma {:induction false} FailureIsFinal(packages: Dict<Record>, verdicts: seq<Verdict>, i: nat, n: nat)
    requires i <= n <= |packages.keys| == |verdicts| && Filtered(packages, verdicts, i).Failure?
    ensures Filtered(packages, verdicts, n).Failure?
    decreases n - i
  {
    if i < n {
      FailureIsFinal(packages, verdicts, i, n - 1);
    }
  }

  /** Verdict `i` is the one `Decide` gives the package at position `i`. */
  predicate Judged(userParams: Record, packages: Dict<Record>, verdicts: seq<Verdict>, i: int)
  {
    0 <= i < |verdicts| == |packages.keys| && verdicts[i] == Decide(userParams, packages.entries[packages.keys[i]])
  }

  /** Every verdict in `verdicts` is the one `Decide` gives. */
  predicate JudgedAll(userParams: Record, packages: Dict<Record>, verdicts: seq<Verdict>)
  {
    |verdicts| == |packages.keys| && forall i :: 0 <= i < |verdicts| ==> Judged(userParams, packages, verdicts, i)
  }

  lemma VerdictsJudged(userParams: Record, packages: Dict<Record>)
    ensures JudgedAll(userParams, packages, Verdicts(userParams, packages, |packages.keys|))
  {
    var verdicts := Verdicts(userParams, packages, |packages.keys|);
    forall i | 0 <= i < |verdicts| ensures Judged(userParams, packages, verdicts, i) {
      VerdictAt(userParams, packages, |packages.keys|, i);
    }
  }

  /** `process_packages`. */
  method ProcessPackages(userParams: Record, packages: Dict<Record>) returns (r: Reply<Dict<Record>>)
    ensures r == ProcessSpec(userParams, packages)
  {
    ghost var verdicts := Verdicts(userParams, packages, |packages.keys|);
    VerdictsJudged(userParams, packages);
    r := FilterPackages(userParams, packages, verdicts);
  }

  /** The loop of `process_packages`, against the verdicts `Decide` gives. */
  method FilterPackages(userParams: Record, packages: Dict<Record>, ghost verdicts: seq<Verdict>)
    returns (r: Reply<Dict<Record>>)
    requires JudgedAll(userParams, packages, verdicts)
    ensures r == Filtered(packages, verdicts, |packages.keys|)
  {
    var filteredPackages: Dict<Record> := EmptyDict();
    var i := 0;
    while i < |packages.keys|
      invariant 0 <= i <= |packages.keys|
      invariant Filtered(packages, verdicts, i) == Success(filteredPackages)
    {
      var step := FilterPackage(userParams, packages, verdicts, i, filteredPackages);
      if step.Failure? {
        FailureIsFinal(packages, verdicts, i + 1, |packages.keys|);
        return Failure;
      }
      filteredPackages := step.message;
      i := i + 1;
    }
    r := Success(filteredPackages);
  }

  /** One pass of the loop of `process_packages`, on the package at position `i`. */
  method FilterPackage(userParams: Record, packages: Dict<Record>, ghost verdicts: seq<Verdict>, i: nat,
                       kept: Dict<Record>) returns (step: Reply<Dict<Record>>)
    requires i < |packages.keys| && JudgedAll(userParams, packages, verdicts)
    requires Filtered(packages, verdicts, i) == Success(kept)
    ensures step == Filtered(packages, verdicts, i + 1)
  {
    var name := packages.keys[i];
    var package := packages.entries[name];
    var verdict := FilterOne(userParams, package);
    assert Judged(userParams, packages, verdicts, i);
    FilteredNext(packages, verdicts, i, kept);
    match verdict
    case Raise => step := Failure;
    case Drop => step := Success(kept);
    case Keep => step := Success(Put(kept, name, package));
  }

  /** The loop body of `process_packages` on one package: `continue` is `Drop`, an exception `Raise`. */
  method FilterOne(userParams: Record, package: Record) returns (verdict: Verdict)
    ensures verdict == Decide(userParams, package)
  {
    if "python_version" !in userParams {
      return Raise;
    }
    var pythonVersion := userParams["python_version"];
    if Truthy(pythonVersion) {
      if "condition" !in package {
        return Raise;
      }
      if Truthy(package["condition"]) {
        if !package["condition"].Text? {
          return Raise;
        }
        var condition := Strip(package["condition"].text);
        if StartsWith(condition, "python") {
          var parts := Split(condition, "=");
          if |parts| < 2 {
            return Raise;
          }
          var conditionVersion := parts[1];
          if Text(conditionVersion) != pythonVersion {
            return Drop;
          }
        } else if StartsWith(condition, "extra") {
          return Drop;
        }
      }
    }
    verdict := Keep;
  }

  /** Package `name` comes among the first `n` in iteration order and its verdict is `Keep`. */
  predicate KeptAmong(packages: Dict<Record>, verdicts: seq<Verdict>, n: nat, name: string)
    requires n <= |packages.keys| == |verdicts|
  {
    exists i :: 0 <= i < n && packages.keys[i] == name && verdicts[i] == Keep
  }

  /**
   * The loop builds a sub-dictionary of its input: a key is present exactly
   * when its verdict is `Keep`, with the same record, and nothing is added.
   */
  lemma {:induction false} FilteredIsSubDict(packages: Dict<Record>, verdicts: seq<Verdict>, n: nat, name: string)
    requires n <= |packages.keys| == |verdicts| && Filtered(packages, verdicts, n).Success?
    ensures var kept := Filtered(packages, verdicts, n).message;
      && (name in kept.entries <==> KeptAmong(packages, verdicts, n, name))
      && (name in kept.entries ==> name in packages.entries && kept.entries[name] == packages.entries[name])
  {
    if n > 0 {
      var prev := Filtered(packages, verdicts, n - 1).message;
      FilteredIsSubDict(packages, verdicts, n - 1, name);
      var key := packages.keys[n - 1];
      FilteredNext(packages, verdicts, n - 1, prev);
      FilterStepEntries(prev, key, packages.entries[key], verdicts[n - 1], name);
      KeptAmongNext(packages, verdicts, n, name);
    }
  }

  /** What one pass of the loop body does to the membership and record of `name`. */
  lemma FilterStepEntries(kept: Dict<Record>, key: string, package: Record, verdict: Verdict, name: string)
    requires verdict != Raise
    ensures var next := FilterStep(kept, key, package, verdict).message;
      && (name in next.entries <==> name in kept.entries || (verdict == Keep && key == name))
      && (name in next.entries ==>
            next.entries[name] == if verdict == Keep && key == name then package else kept.entries[name])
  {
  }

  lemma KeptAmongNext(packages: Dict<Record>, verdicts: seq<Verdict>, n: nat, name: string)
    requires 0 < n <= |packages.keys| == |verdicts|
    ensures KeptAmong(packages, verdicts, n, name) <==>
            KeptAmong(packages, verdicts, n - 1, name) || (packages.keys[n - 1] == name && verdicts[n - 1] == Keep)
  {
    if KeptAmong(packages, verdicts, n, name) {
      var i :| 0 <= i < n && packages.keys[i] == name && verdicts[i] == Keep;
      if i < n - 1 {
        assert KeptAmong(packages, verdicts, n - 1, name);
      }
    }
    if KeptAmong(packages, verdicts, n - 1, name) {
      var i :| 0 <= i < n - 1 && packages.keys[i] == name && verdicts[i] == Keep;
      assert KeptAmong(packages, verdicts, n, name);
    }
    if packages.keys[n - 1] == name && verdicts[n - 1] == Keep {
      assert KeptAmong(packages, verdicts, n, name);
    }
  }

  /** `process_packages` keeps exactly the packages whose verdict is `Keep`, each with its record unchanged. */
  lemma ProcessKeepsExactly(userParams: Record, packages: Dict<Record>, name: string)
    requires ProcessSpec(userParams, packages).Success?
    ensures var kept := ProcessSpec(userParams, packages).message;
      && (name in kept.entries <==> name in packages.entries && Decide(userParams, packages.entries[name]) == Keep)
      && (name in kept.entries ==> kept.entries[name] == packages.entries[name])
  {
    var verdicts := Verdicts(userParams, packages, |packages.keys|);
    FilteredIsSubDict(packages, verdicts, |packages.keys|, name);
    if KeptAmong(packages, verdicts, |packages.keys|, name) {
      var i :| 0 <= i < |packages.keys| && packages.keys[i] == name && verdicts[i] == Keep;
      VerdictAt(userParams, packages, |packages.keys|, i);
    }
    if name in packages.entries && Decide(userParams, packages.entries[name]) == Keep {
      var i :| 0 <= i < |packages.keys| && packages.keys[i] == name;
      VerdictAt(userParams, packages, |packages.keys|, i);
      assert KeptAmong(packages, verdicts, |packages.keys|, name);
    }
  }

  lemma {:induction false} FilteredFailIff(packages: Dict<Record>, verdicts: seq<Verdict>, n: nat)
    requires n <= |packages.keys| == |verdicts|
    ensures Filtered(packages, verdicts, n).Failure? <==> exists i :: 0 <= i < n && verdicts[i] == Raise
  {
    if n > 0 {
      FilteredFailIff(packages, verdicts, n - 1);
      var prev := Filtered(packages, verdicts, n - 1);
      if prev.Success? {
        var key := packages.keys[n - 1];
        assert Filtered(packages, verdicts, n) == FilterStep(prev.message, key, packages.entries[key], verdicts[n - 1]);
      }
    }
  }

  /** `process_packages` fails exactly when some package's verdict is `Raise`. */
  lemma ProcessFailIff(userParams: Record, packages: Dict<Record>)
    ensures ProcessSpec(userParams, packages).Failure? <==>
            exists name <- packages.keys :: Decide(userParams, packages.entries[name]) == Raise
  {
    var verdicts := Verdicts(userParams, packages, |packages.keys|);
    FilteredFailIff(packages, verdicts, |packages.keys|);
    if exists i :: 0 <= i < |verdicts| && verdicts[i] == Raise {
      var i :| 0 <= i < |verdicts| && verdicts[i] == Raise;
      VerdictAt(userParams, packages, |packages.keys|, i);
      assert packages.keys[i] in packages.keys;
    }
    if exists name <- packages.keys :: Decide(userParams, packages.entries[name]) == Raise {
      var name :| name in packages.keys && Decide(userParams, packages.entries[name]) == Raise;
      var i :| 0 <= i < |packages.keys| && packages.keys[i] == name;
      VerdictAt(userParams, packages, |packages.keys|, i);
    }
  }

  lemma {:induction false} AllKeptKeys(packages: Dict<Record>, verdicts: seq<Verdict>, n: nat)
    requires n <= |packages.keys| == |verdicts| && forall i :: 0 <= i < n ==> verdicts[i] == Keep
    ensures Filtered(packages, verdicts, n).Success?
    ensures Filtered(packages, verdicts, n).message.keys == packages.keys[..n]
  {
    if n > 0 {
      var k := n - 1;
      AllKeptKeys(packages, verdicts, k);
      FreshAt(packages.keys, n);
      var prev := Filtered(packages, verdicts, k).message;
      var name := packages.keys[k];
      FilteredNext(packages, verdicts, k, prev);
      KeepFreshKey(prev, packages.keys[..k], name, packages.entries[name]);
      assert packages.keys[..n] == packages.keys[..k] + [name];
    }
  }

  /** Keeping a package not seen before appends its name to the order. */
  lemma KeepFreshKey(kept: Dict<Record>, before: seq<string>, name: string, package: Record)
    requires kept.keys == before && name !in before
    ensures FilterStep(kept, name, package, Keep) == Success(Put(kept, name, package))
    ensures Put(kept, name, package).keys == before + [name]
  {
  }

  /** With `python_version` present but falsy, every package is kept: the reply is the input, in the same order. */
  lemma UnsetPythonVersionKeepsAll(userParams: Record, packages: Dict<Record>)
    requires "python_version" in userParams && !Truthy(userParams["python_version"])
    ensures ProcessSpec(userParams, packages) == Success(packages)
  {
    var n := |packages.keys|;
    var verdicts := Verdicts(userParams, packages, n);
    forall i | 0 <= i < n ensures verdicts[i] == Keep {
      VerdictAt(userParams, packages, n, i);
    }
    AllKeptKeys(packages, verdicts, n);
    var kept := Filtered(packages, verdicts, n).message;
    assert packages.keys[..n] == packages.keys;
    forall name | name in kept.entries || name in packages.entries
      ensures name in kept.entries && name in packages.entries && kept.entries[name] == packages.entries[name]
    {
      FilteredIsSubDict(packages, verdicts, n, name);
      if name in packages.entries {
        var i :| 0 <= i < n && packages.keys[i] == name;
        assert KeptAmong(packages, verdicts, n, name);
      }
    }
    assert kept.entries == packages.entries;
  }

  /** A package whose `condition` is falsy (empty text, `None`, `False`) is kept whatever `python_version` is. */
  lemma EmptyConditionKept(userParams: Record, package: Record)
    requires "python_version" in userParams && "condition" in package && !Truthy(package["condition"])
    ensures Decide(userParams, package) == Keep
  {
  }

  /** The text between the first and the second `=` of `s` (to the end when there is no second). */
  function SecondField(s: string): string
    requires Contains(s, "=")
  {
    match Find(s, "=")
    case None => []
    case Some(i) =>
      var rest := s[i + 1..];
      match Find(rest, "=")
      case None => rest
      case Some(j) => rest[..j]
  }

  /** `split("=")[1]` is the text between the first and second `=`. */
  lemma SplitSecondField(s: string)
    requires Contains(s, "=")
    ensures |Split(s, "=")| >= 2 && Split(s, "=")[1] == SecondField(s)
  {
    FindIsLeftmost(s, "=");
    var i := Find(s, "=").value;
    var rest := s[i + 1..];
    SplitFirstPiece(s, "=", i);
    FindIsLeftmost(rest, "=");
    match Find(rest, "=")
    case None =>
      SplitWithoutSeparator(rest, "=");
    case Some(j) =>
      SplitFirstPiece(rest, "=", j);
  }

  /** Once `python_version` is set, a non-empty text condition is judged by its stripped text alone. */
  lemma DecideByCondition(userParams: Record, package: Record)
    requires "python_version" in userParams && Truthy(userParams["python_version"])
    requires "condition" in package && package["condition"].Text? && package["condition"].text != []
    ensures Decide(userParams, package) == ConditionVerdict(Strip(package["condition"].text), userParams["python_version"])
  {
  }

  /** A condition starting with `extra` is dropped. */
  lemma ExtraConditionDropped(condition: string, pythonVersion: Value)
    requires StartsWith(condition, "extra")
    ensures ConditionVerdict(condition, pythonVersion) == Drop
  {
    assert condition[0] == 'e';
    assert !StartsWith(condition, "python") by {
      if |condition| >= 6 {
        assert condition[..6][0] == 'e';
      }
    }
  }

  /**
   * A condition starting with `python` raises exactly when it has no `=`,
   * and otherwise is kept exactly when the text between its first and second
   * `=` is the user's `python_version`.
   */
  lemma PythonCondition(condition: string, pythonVersion: Value)
    requires StartsWith(condition, "python")
    ensures ConditionVerdict(condition, pythonVersion) == Raise <==> !Contains(condition, "=")
    ensures Contains(condition, "=") ==>
              (ConditionVerdict(condition, pythonVersion) == Keep <==> Text(SecondField(condition)) == pythonVersion)
  {
    SplitHasSecondPiece(condition, "=");
    if Contains(condition, "=") {
      SplitSecondField(condition);
    }
  }

  /**
   * A condition written as in PEP 508, `python_version=="3.8"`, is always
   * dropped once `python_version` is set: the text between its first two
   * `=` is empty, and a set `python_version` is not.
   */
  lemma DoubleEqualsConditionDropped(marker: string, version: string, pythonVersion: Value)
    requires Truthy(pythonVersion) && '=' !in marker
    ensures ConditionVerdict("python" + marker + "==" + version, pythonVersion) == Drop
  {
    var c := "python" + marker + "==" + version;
    var i := |"python" + marker|;
    FirstEqualsAfter("python" + marker, "=" + version);
    assert c == ("python" + marker) + "=" + ("=" + version);
    assert c[i + 1..] == "=" + version;
    assert OccursAt(c[i + 1..], "=", 0);
    assert Find(c[i + 1..], "=") == Some(0);
    SplitSecondField(c);
    assert SecondField(c) == [];
    assert c[..6] == "python";
    PythonCondition(c, pythonVersion);
  }

  lemma FirstEqualsAfter(head: string, tail: string)
    requires '=' !in head
    ensures Find(head + "=" + tail, "=") == Some(|head|)
  {
    var c := head + "=" + tail;
    assert OccursAt(c, "=", |head|);
    forall k: nat | k < |head| ensures !OccursAt(c, "=", k) {
      assert c[k] == head[k];
    }
    FindAt(c, "=", |head|);
  }
}
