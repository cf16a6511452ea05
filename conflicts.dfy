/**
 * `DependencyController.conflict_check`: each package's `req_version` text is
 * split on `,` into clauses, each clause is evaluated against the package's
 * `cur_version`, and a package with a failing clause gets `flag` set to true
 * on its node of the controller's graph.
 *
 * Python's `eval` is a parameter: it maps the text `cur_version + op + ver`
 * to `Some(b)` for a boolean result, or to `None` when evaluating raises.
 */
module Conflicts {

  import opened Wrappers
  import opened PyText
  import opened PyData
  import opened Digraph
  import opened RequiresDist
  import opened Upload

  type Evaluate = string -> Option<bool>

  /** `cond[:1]`: only the FIRST character is the operator, so `>=2.0` has operator `>`. */
  function ClauseOperator(cond: string): string
  {
    if cond == [] then [] else cond[..1]
  }

  /** `cond[1:]`: the rest of the clause, empty for an empty clause. */
  function ClauseVersion(cond: string): string
  {
    if cond == [] then [] else cond[1..]
  }

  /** The operator is at most one character, and operator and version put back together give the clause. */
  lemma ClauseSplits(cond: string)
    ensures |ClauseOperator(cond)| <= 1
    ensures ClauseOperator(cond) + ClauseVersion(cond) == cond
    ensures cond != [] ==> ClauseOperator(cond) == [cond[0]]
  {
  }

  /** A two-character operator is cut after its first character. */
  lemma TwoCharacterOperator()
    ensures ClauseOperator(">=2.0") == ">" && ClauseVersion(">=2.0") == "=2.0"
  {
  }

  /** The text handed to `eval` for clause `cond`. */
  function ClauseText(cur: string, cond: string): (text: string)
    ensures text == cur + cond
  {
    ClauseSplits(cond);
    cur + ClauseOperator(cond) + ClauseVersion(cond)
  }

  /**
   * The `check` variable after the first `n` clauses: true as long as every
   * clause so far evaluated true; `None` once an evaluation has raised.
   * Every clause is evaluated, even after one has failed.
   */
  function Holds(cur: string, conds: seq<string>, evaluate: Evaluate, n: nat): (r: Option<bool>)
    requires n <= |conds|
    ensures r.Some? ==> forall i :: 0 <= i < n ==> evaluate(ClauseText(cur, conds[i])).Some?
  {
    if n == 0 then Some(true)
    else
      match Holds(cur, conds, evaluate, n - 1)
      case None => None
      case Some(check) =>
        match evaluate(ClauseText(cur, conds[n - 1]))
        case None => None
        case Some(b) => Some(check && b)
  }

  /** The `check` value is true exactly when every clause evaluated to true. */
  lemma {:induction false} HoldsTrueIff(cur: string, conds: seq<string>, evaluate: Evaluate, n: nat)
    requires n <= |conds|
    ensures Holds(cur, conds, evaluate, n) == Some(true) <==>
      forall i :: 0 <= i < n ==> evaluate(ClauseText(cur, conds[i])) == Some(true)
  {
    if n > 0 {
      HoldsTrueIff(cur, conds, evaluate, n - 1);
      if Holds(cur, conds, evaluate, n) == Some(true) {
        forall i | 0 <= i < n ensures evaluate(ClauseText(cur, conds[i])) == Some(true) {
          if i < n - 1 {
            assert Holds(cur, conds, evaluate, n - 1) == Some(true);
          }
        }
      }
    }
  }

  /** Evaluation raises exactly when some clause's evaluation raises. */
  lemma {:induction false} HoldsNoneIff(cur: string, conds: seq<string>, evaluate: Evaluate, n: nat)
    requires n <= |conds|
    ensures Holds(cur, conds, evaluate, n).None? <==>
      exists i :: 0 <= i < n && evaluate(ClauseText(cur, conds[i])).None?
  {
    if n > 0 {
      HoldsNoneIff(cur, conds, evaluate, n - 1);
      if Holds(cur, conds, evaluate, n).None? && Holds(cur, conds, evaluate, n - 1).Some? {
        assert evaluate(ClauseText(cur, conds[n - 1])).None?;
      }
      if Holds(cur, conds, evaluate, n - 1).None? {
        var i :| 0 <= i < n - 1 && evaluate(ClauseText(cur, conds[i])).None?;
        assert 0 <= i < n;
      }
    }
  }

  /** The clauses ANDed together fail exactly when none raises and at least one evaluates to false. */
  lemma HoldsFalseIff(cur: string, conds: seq<string>, evaluate: Evaluate, n: nat)
    requires n <= |conds|
    ensures Holds(cur, conds, evaluate, n) == Some(false) <==>
      && (forall i :: 0 <= i < n ==> evaluate(ClauseText(cur, conds[i])).Some?)
      && (exists i :: 0 <= i < n && evaluate(ClauseText(cur, conds[i])) == Some(false))
  {
    HoldsTrueIff(cur, conds, evaluate, n);
    HoldsNoneIff(cur, conds, evaluate, n);
    if (forall i :: 0 <= i < n ==> evaluate(ClauseText(cur, conds[i])).Some?) {
      if !(exists i :: 0 <= i < n && evaluate(ClauseText(cur, conds[i])) == Some(false)) {
        forall i | 0 <= i < n ensures evaluate(ClauseText(cur, conds[i])) == Some(true) {
          assert evaluate(ClauseText(cur, conds[i])).Some?;
        }
      }
    }
  }

  /** Once an evaluation has raised, later clauses cannot undo it. */
  lemma {:induction false} HoldsRaisedFinal(cur: string, conds: seq<string>, evaluate: Evaluate, i: nat, n: nat)
    requires i <= n <= |conds| && Holds(cur, conds, evaluate, i).None?
    ensures Holds(cur, conds, evaluate, n).None?
    decreases n - i
  {
    if i < n {
      HoldsRaisedFinal(cur, conds, evaluate, i, n - 1);
    }
  }

  /** The clause list `req_condition.split(',')`. */
  function Clauses(reqCondition: string): (conds: seq<string>)
    ensures |conds| >= 1 && Join(conds, ",") == reqCondition
    ensures forall c <- conds :: ',' !in c
  {
    SplitJoins(reqCondition, ",");
    SplitPiecesAvoidSeparator(reqCondition, ",");
    var conds := Split(reqCondition, ",");
    assert forall c <- conds :: ',' !in c by {
      forall c <- conds
        ensures ',' !in c
      {
        if ',' in c {
          var i :| 0 <= i < |c| && c[i] == ',';
          assert OccursAt(c, ",", i);
        }
      }
    }
    conds
  }

  /** The record has the two text fields the check reads. */
  predicate Readable(record: Record)
  {
    && "req_version" in record && record["req_version"].Text?
    && "cur_version" in record && record["cur_version"].Text?
  }

  /**
   * The evaluation of the record's clauses, the pieces of `req_version`
   * split on `,` (as `Clauses` gives them); a missing or non-text field raises.
   */
  function Verdict(record: Record, evaluate: Evaluate): (r: Option<bool>)
    ensures r.Some? ==> Readable(record)
  {
    if !Readable(record) then None
    else
      var conds := Split(record["req_version"].text, ",");
      Holds(record["cur_version"].text, conds, evaluate, |conds|)
  }

  /** A package is judged exactly when its fields are text and no clause's evaluation raises. */
  lemma VerdictSomeIff(record: Record, evaluate: Evaluate)
    ensures Verdict(record, evaluate).Some? <==>
      && Readable(record)
      && forall c <- Clauses(record["req_version"].text) :: evaluate(ClauseText(record["cur_version"].text, c)).Some?
  {
    if Readable(record) {
      var cur, conds := record["cur_version"].text, Clauses(record["req_version"].text);
      HoldsNoneIff(cur, conds, evaluate, |conds|);
    }
  }

  /** The record's clauses all evaluate, and one of them fails. */
  predicate Fails(record: Record, evaluate: Evaluate)
  {
    Verdict(record, evaluate) == Some(false)
  }

  /** `flag` is set to true on the node. */
  predicate Flagged(attrs: Record)
  {
    "flag" in attrs && attrs["flag"] == Flag(true)
  }

  /** The graph after the checks so far, and whether one of them raised. */
  datatype Sweep = Sweep(graph: Graph, raised: bool)

  /**
   * One pass of the loop, for package `node` with record `record`. A raise
   * leaves the graph as it was; a failing package whose node is missing
   * from the graph raises as well.
   */
  function CheckNode(g: Graph, node: string, record: Record, evaluate: Evaluate): (r: Sweep)
    ensures r.graph.nodes.Keys == g.nodes.Keys && r.graph.edges == g.edges
    ensures forall m :: m in g.nodes && m != node ==> r.graph.nodes[m] == g.nodes[m]
    ensures r.raised ==> r.graph == g
  {
    match Verdict(record, evaluate)
    case None => Sweep(g, true)
    case Some(check) =>
      if check then Sweep(g, false)
      else if node !in g.nodes then Sweep(g, true)
      else Sweep(SetAttr(g, node, "flag", Flag(true)), false)
  }

  /** The loop over the first `n` packages; a raise ends it. */
  function Checked(g: Graph, packages: Dict<Record>, evaluate: Evaluate, n: nat): (r: Sweep)
    requires n <= |packages.keys|
    ensures r.graph.nodes.Keys == g.nodes.Keys && r.graph.edges == g.edges
    ensures forall m :: m in g.nodes && Flagged(g.nodes[m]) ==> Flagged(r.graph.nodes[m])
  {
    if n == 0 then Sweep(g, false)
    else
      var prev := Checked(g, packages, evaluate, n - 1);
      if prev.raised then prev
      else CheckNode(prev.graph, packages.keys[n - 1], packages.entries[packages.keys[n - 1]], evaluate)
  }

  /**
   * `conflict_check(self, packages)` on the controller's graph: the new
   * graph, and the reply, which on success always says there is no conflict.
   */
  function ConflictSpec(g: Graph, packages: Dict<Record>, evaluate: Evaluate): (r: (Graph, Reply<bool>))
    ensures r.0.nodes.Keys == g.nodes.Keys && r.0.edges == g.edges
    ensures r.1 == Success(false) || r.1 == Failure
    ensures forall m :: m in g.nodes && Flagged(g.nodes[m]) ==> Flagged(r.0.nodes[m])
  {
    var s := Checked(g, packages, evaluate, |packages.keys|);
    (s.graph, if s.raised then Failure else Success(false))
  }

  lemma CheckedNext(g: Graph, packages: Dict<Record>, evaluate: Evaluate, n: nat, m: nat)
    requires m == n + 1 <= |packages.keys|
    ensures Checked(g, packages, evaluate, m) ==
      var prev := Checked(g, packages, evaluate, n);
      if prev.raised then prev else CheckNode(prev.graph, packages.keys[n], packages.entries[packages.keys[n]], evaluate)
  {
  }

  /** Once a check has raised, later packages are not checked. */
  lemma {:induction false} CheckedRaisedFinal(g: Graph, packages: Dict<Record>, evaluate: Evaluate, i: nat, n: nat)
    requires i <= n <= |packages.keys| && Checked(g, packages, evaluate, i).raised
    ensures Checked(g, packages, evaluate, n) == Checked(g, packages, evaluate, i)
    decreases n - i
  {
    if i < n {
      var k := n - 1;
      CheckedRaisedFinal(g, packages, evaluate, i, k);
      CheckedStaysRaised(g, packages, evaluate, k, n);
    }
  }

  /** A pass after a raise changes nothing. */
  lemma CheckedStaysRaised(g: Graph, packages: Dict<Record>, evaluate: Evaluate, k: nat, n: nat)
    requires n == k + 1 <= |packages.keys| && Checked(g, packages, evaluate, k).raised
    ensures Checked(g, packages, evaluate, n) == Checked(g, packages, evaluate, k)
  {
  }

  /** Node `m` is one of the first `n` packages, and that package fails its check. */
  predicate FailingAmong(packages: Dict<Record>, evaluate: Evaluate, n: nat, m: string)
    requires n <= |packages.keys|
  {
    n > 0 && ((packages.keys[n - 1] == m && Fails(packages.entries[m], evaluate)) || FailingAmong(packages, evaluate, n - 1, m))
  }

  lemma FailingAmongNext(packages: Dict<Record>, evaluate: Evaluate, n: nat, k: nat, m: string)
    requires k == n + 1 <= |packages.keys|
    ensures FailingAmong(packages, evaluate, k, m) <==>
      (packages.keys[n] == m && Fails(packages.entries[m], evaluate)) || FailingAmong(packages, evaluate, n, m)
  {
  }

  /** Among all the packages, `m` is failing exactly when it is a package key whose record fails. */
  lemma {:induction false} FailingAmongIff(packages: Dict<Record>, evaluate: Evaluate, n: nat, m: string)
    requires n <= |packages.keys|
    ensures FailingAmong(packages, evaluate, n, m) <==> m in packages.keys[..n] && Fails(packages.entries[m], evaluate)
  {
    if n > 0 {
      FailingAmongIff(packages, evaluate, n - 1, m);
      assert packages.keys[..n] == packages.keys[..n - 1] + [packages.keys[n - 1]];
    }
  }

  /** The attributes of a node after the sweep: `flag` set exactly when it failed. */
  function AfterCheck(attrs: Record, failing: bool): Record
  {
    if failing then attrs["flag" := Flag(true)] else attrs
  }

  /** A check that did not raise sets `flag` on its node exactly when the package fails, and changes nothing else. */
  lemma CheckNodeExact(g: Graph, node: string, record: Record, evaluate: Evaluate)
    requires !CheckNode(g, node, record, evaluate).raised
    ensures forall m :: m in g.nodes ==>
      CheckNode(g, node, record, evaluate).graph.nodes[m] == AfterCheck(g.nodes[m], m == node && Fails(record, evaluate))
  {
  }

  /**
   * A sweep that did not raise sets `flag` to true on exactly the nodes of
   * failing packages, and leaves every other attribute as it was.
   */
  lemma {:induction false} CheckedExact(g: Graph, packages: Dict<Record>, evaluate: Evaluate, n: nat)
    requires n <= |packages.keys| && !Checked(g, packages, evaluate, n).raised
    ensures forall m :: m in g.nodes ==>
      Checked(g, packages, evaluate, n).graph.nodes[m] == AfterCheck(g.nodes[m], FailingAmong(packages, evaluate, n, m))
  {
    if n > 0 {
      var k := n - 1;
      CheckedNext(g, packages, evaluate, k, n);
      CheckedExact(g, packages, evaluate, k);
      forall m | m in g.nodes
        ensures Checked(g, packages, evaluate, n).graph.nodes[m] == AfterCheck(g.nodes[m], FailingAmong(packages, evaluate, n, m))
      {
        CheckedExactStep(g, packages, evaluate, k, n, m);
      }
    }
  }

  /** One pass of `CheckedExact`, for one node `m`. */
  lemma CheckedExactStep(g: Graph, packages: Dict<Record>, evaluate: Evaluate, k: nat, n: nat, m: string)
    requires n == k + 1 <= |packages.keys| && m in g.nodes
    requires !Checked(g, packages, evaluate, k).raised && !Checked(g, packages, evaluate, n).raised
    requires Checked(g, packages, evaluate, k).graph.nodes[m] == AfterCheck(g.nodes[m], FailingAmong(packages, evaluate, k, m))
    ensures Checked(g, packages, evaluate, n).graph.nodes[m] == AfterCheck(g.nodes[m], FailingAmong(packages, evaluate, n, m))
  {
    CheckedNext(g, packages, evaluate, k, n);
    var prev := Checked(g, packages, evaluate, k);
    var node := packages.keys[k];
    CheckNodeExact(prev.graph, node, packages.entries[node], evaluate);
    FailingAmongNext(packages, evaluate, k, n, m);
  }

  predicate Stops(g: Graph, node: string, record: Record, evaluate: Evaluate)
  {
    Verdict(record, evaluate).None? || (Fails(record, evaluate) && node !in g.nodes)
  }

  /** Some package among the first `n` stops the check. */
  predicate AnyStops(g: Graph, packages: Dict<Record>, evaluate: Evaluate, n: nat)
    requires n <= |packages.keys|
  {
    n > 0 && (AnyStops(g, packages, evaluate, n - 1) || Stops(g, packages.keys[n - 1], packages.entries[packages.keys[n - 1]], evaluate))
  }

  /** The sweep raises exactly when some package stops it; the graph's node set never changes, so neither does that test. */
  lemma {:induction false} CheckedRaisesIff(g: Graph, packages: Dict<Record>, evaluate: Evaluate, n: nat)
    requires n <= |packages.keys|
    ensures Checked(g, packages, evaluate, n).raised <==> AnyStops(g, packages, evaluate, n)
  {
    if n > 0 {
      var k := n - 1;
      CheckedRaisesIff(g, packages, evaluate, k);
      if Checked(g, packages, evaluate, k).raised {
        CheckedRaisedFinal(g, packages, evaluate, k, n);
      } else {
        CheckedRaisesStep(g, packages, evaluate, k, n);
      }
    }
  }

  /** A pass that follows passes without a raise raises exactly when its package stops the check. */
  lemma CheckedRaisesStep(g: Graph, packages: Dict<Record>, evaluate: Evaluate, k: nat, n: nat)
    requires n == k + 1 <= |packages.keys| && !Checked(g, packages, evaluate, k).raised
    ensures Checked(g, packages, evaluate, n).raised <==>
      Stops(g, packages.keys[k], packages.entries[packages.keys[k]], evaluate)
  {
    CheckedNext(g, packages, evaluate, k, n);
  }

  /**
   * `conflict_check` fails exactly when some package stops it; otherwise it
   * answers that there is no conflict and flags exactly the failing packages.
   */
  lemma ConflictCheckResult(g: Graph, packages: Dict<Record>, evaluate: Evaluate)
    ensures var r := ConflictSpec(g, packages, evaluate);
      && (r.1 == Failure <==> AnyStops(g, packages, evaluate, |packages.keys|))
      && (r.1 == Success(false) ==> forall m :: m in g.nodes ==>
            r.0.nodes[m] == AfterCheck(g.nodes[m], m in packages.keys && Fails(packages.entries[m], evaluate)))
  {
    var n := |packages.keys|;
    CheckedRaisesIff(g, packages, evaluate, n);
    if !Checked(g, packages, evaluate, n).raised {
      CheckedExact(g, packages, evaluate, n);
      assert packages.keys[..n] == packages.keys;
      forall m | m in g.nodes
        ensures FailingAmong(packages, evaluate, n, m) == (m in packages.keys && Fails(packages.entries[m], evaluate))
      {
        FailingAmongIff(packages, evaluate, n, m);
      }
    }
  }

  /**
   * The check reads `req_version` and `cur_version`, while the records that
   * `get_requirements` and `upload_file` build carry `reqd_version` (or
   * `reqd_versions`) and `curr_version`: checking either kind of record raises.
   */
  lemma BuiltRecordsStop(name: string, specifier: string, version: string, versions: seq<string>, evaluate: Evaluate)
    ensures Verdict(RequirementRecord(name, specifier), evaluate).None?
    ensures Verdict(PinnedRecord(name, version, versions), evaluate).None?
  {
    assert "req_version" !in RequirementRecord(name, specifier);
    assert "req_version" !in PinnedRecord(name, version, versions);
  }
}
