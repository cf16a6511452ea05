/**
 * The `DependencyController` object: its graph field and the two operations
 * that read and update it, `parse_dependency_graph` and `conflict_check`.
 * Each method is proved to leave the graph and return the reply that the
 * functions of `GraphMerge` and `Conflicts` describe; the properties of those
 * functions are proved there.
 */
module Controller {

  import opened Wrappers
  import opened PyData
  import opened Digraph
  import opened RequiresDist
  import opened GraphMerge
  import opened Conflicts

  /** The attributes of `attrs` whose keys are not in `pending`. */
  function Done(attrs: Record, pending: set<string>): Record
  {
    map k | k in attrs && k !in pending :: attrs[k]
  }

  /** Taking one more pending key sets it on top of what is done. */
  lemma MergeOneMore(base: Record, attrs: Record, pending: set<string>, key: string)
    requires key in pending && pending <= attrs.Keys
    ensures base + Done(attrs, pending - {key}) == (base + Done(attrs, pending))[key := attrs[key]]
  {
  }

  /** With nothing merged the record is unchanged, with nothing pending it holds all of `attrs`. */
  lemma MergeEnds(base: Record, attrs: Record)
    ensures base + Done(attrs, attrs.Keys) == base
    ensures base + Done(attrs, {}) == base + attrs
  {
    assert Done(attrs, attrs.Keys) == map[];
    assert Done(attrs, {}) == attrs;
  }

  /** `check = True`, then `check = False` for every clause whose evaluation is false; an evaluation that raises ends the loop. */
  method EvaluateClauses(cur: string, conds: seq<string>, evaluate: Evaluate) returns (r: Option<bool>)
    ensures r == Holds(cur, conds, evaluate, |conds|)
  {
    var check := true;
    var i := 0;
    while i < |conds|
      invariant 0 <= i <= |conds|
      invariant Holds(cur, conds, evaluate, i) == Some(check)
    {
      var cond := conds[i];
      var op := ClauseOperator(cond);
      var ver := ClauseVersion(cond);
      var result := evaluate(cur + op + ver);
      assert cur + op + ver == ClauseText(cur, cond);
      if result.None? {
        HoldsRaisedFinal(cur, conds, evaluate, i + 1, |conds|);
        return None;
      }
      if !result.value {
        check := false;
      }
      i := i + 1;
    }
    return Some(check);
  }

  class DependencyController {

    var temp: int
    var graph: Graph

    /** `__init__`: an empty directed graph. */
    constructor()
      ensures graph == EmptyGraph() && temp == 0
    {
      temp := 0;
      graph := EmptyGraph();
    }

    /** `for key, val in attrs.items(): self.graph.nodes[n][key] = val`, one item at a time. */
    method MergeAttributes(n: string, attrs: Record)
      requires n in graph.nodes
      modifies this
      ensures graph == MergeInto(old(graph), n, attrs) && temp == old(temp)
    {
      ghost var g0 := graph;
      ghost var cur := g0.nodes[n];
      var pending := attrs.Keys;
      MergeEnds(cur, attrs);
      while pending != {}
        invariant pending <= attrs.Keys
        invariant cur == g0.nodes[n] + Done(attrs, pending)
        invariant graph == Graph(g0.nodes[n := cur], g0.edges)
        invariant temp == old(temp)
        decreases |pending|
      {
        var key :| key in pending;
        graph := SetAttr(graph, n, key, attrs[key]);
        MergeOneMore(g0.nodes[n], attrs, pending, key);
        cur := cur[key := attrs[key]];
        pending := pending - {key};
      }
    }

    /** One pass of the first loop of `parse_dependency_graph`. */
    method SeedPackage(package: string, content: Record) returns (raised: bool)
      modifies this
      ensures Run(graph, None, raised) == SeedStep(Run(old(graph), None, false), package, content)
      ensures temp == old(temp)
    {
      if "package_name" !in content || !content["package_name"].Text? {
        return true;
      }
      var name := content["package_name"].text;
      if name !in graph.nodes {
        graph := AddNode(graph, name, content);
        if package !in graph.nodes {
          return true;
        }
        MergeAttributes(package, content);
      }
      return false;
    }

    /** One pass of the innermost loop: requirement `req` of `package`, with its record `content`. */
    method AttachRequirement(package: string, req: string, content: Record, versionsOf: VersionsOf, ghost last: Option<string>)
      returns (raised: bool)
      modifies this
      ensures Run(graph, Some(req), raised) == Attach(Run(old(graph), last, false), package, req, content, versionsOf)
      ensures temp == old(temp)
    {
      if req !in graph.nodes {
        graph := AddNode(graph, req, map[]);
        var versions := versionsOf(req);
        if content != map[] {
          if package !in graph.nodes {
            return true;
          }
          MergeAttributes(package, content);
        }
        if versions.None? {
          return true;
        }
        graph := SetAttr(graph, req, "list_versions", TextList(versions.value));
      } else {
        if "reqd_version" !in content {
          return true;
        }
        graph := SetAttr(graph, req, "reqd_version", content["reqd_version"]);
      }
      graph := AddEdge(graph, package, req);
      return false;
    }

    /** The innermost loop, over the requirements of `package`; `req` keeps the last one bound. */
    method AttachRequirements(package: string, reqs: Dict<Record>, versionsOf: VersionsOf, last0: Option<string>)
      returns (last: Option<string>, raised: bool)
      modifies this
      ensures Run(graph, last, raised) == Attached(Run(old(graph), last0, false), package, reqs, versionsOf, |reqs.keys|)
      ensures temp == old(temp)
    {
      ghost var start := Run(graph, last0, false);
      last := last0;
      var k := 0;
      while k < |reqs.keys|
        invariant 0 <= k <= |reqs.keys|
        invariant Attached(start, package, reqs, versionsOf, k) == Run(graph, last, false)
        invariant temp == old(temp)
      {
        var req := reqs.keys[k];
        var next := k + 1;
        AttachedNext(start, package, reqs, versionsOf, k, next);
        raised := AttachRequirement(package, req, reqs.entries[req], versionsOf, last);
        last := Some(req);
        if raised {
          AttachedRaisedFinal(start, package, reqs, versionsOf, next, |reqs.keys|);
          return;
        }
        k := next;
      }
      raised := false;
    }

    /** The requirements reply for one package record: `get_requirements(package_name, curr_version)`. */
    method FetchRequirements(content: Record, registry: Registry) returns (reply: Reply<Dict<Record>>)
      ensures reply == RequirementsFor(content, registry)
    {
      if "package_name" !in content || "curr_version" !in content {
        return Failure;
      }
      var fetch := registry(content["package_name"], content["curr_version"]);
      match fetch
      case FetchFailed =>
        reply := Failure;
      case Fetched(requiresDist) =>
        reply := GetRequirements(requiresDist);
    }

    /** The first loop of `parse_dependency_graph`: each package whose name is new becomes a node. */
    method SeedPackages(packList: Dict<Record>) returns (raised: bool)
      modifies this
      ensures Run(graph, None, raised) == Seeded(Run(old(graph), None, false), packList, |packList.keys|)
      ensures temp == old(temp)
    {
      var n := |packList.keys|;
      ghost var start := Run(graph, None, false);
      var i := 0;
      while i < n
        invariant 0 <= i <= n
        invariant Seeded(start, packList, i) == Run(graph, None, false)
        invariant temp == old(temp)
      {
        var package := packList.keys[i];
        var next := i + 1;
        SeededNext(start, packList, i, next);
        raised := SeedPackage(package, packList.entries[package]);
        if raised {
          SeededRaisedFinal(start, packList, next, n);
          return;
        }
        i := next;
      }
      raised := false;
    }

    /** The second loop of `parse_dependency_graph`: each package's requirements are fetched and attached. */
    method ExpandPackages(packList: Dict<Record>, registry: Registry, versionsOf: VersionsOf)
      returns (last: Option<string>, raised: bool)
      modifies this
      ensures Run(graph, last, raised) == Expanded(Run(old(graph), None, false), packList, registry, versionsOf, |packList.keys|)
      ensures temp == old(temp)
    {
      var n := |packList.keys|;
      ghost var start := Run(graph, None, false);
      last := None;
      var j := 0;
      while j < n
        invariant 0 <= j <= n
        invariant Expanded(start, packList, registry, versionsOf, j) == Run(graph, last, false)
        invariant temp == old(temp)
      {
        var package := packList.keys[j];
        var content := packList.entries[package];
        var next := j + 1;
        ExpandedNext(start, packList, registry, versionsOf, j, next);
        var reply := FetchRequirements(content, registry);
        if reply.Failure? {
          ExpandedRaisedFinal(start, packList, registry, versionsOf, next, n);
          return last, true;
        }
        last, raised := AttachRequirements(package, reply.message, versionsOf, last);
        if raised {
          ExpandedRaisedFinal(start, packList, registry, versionsOf, next, n);
          return;
        }
        j := next;
      }
      raised := false;
    }

    /**
     * `parse_dependency_graph(pack_list)`, on the pack list's `message`: the
     * graph and the reply are the ones `ParseSpec` describes, so the graph only
     * grows, every edge stays between nodes, and on success every package has
     * an edge to each of its requirements (`GraphMerge.ParseEdges`).
     */
    method ParseDependencyGraph(packList: Dict<Record>, registry: Registry, versionsOf: VersionsOf) returns (r: Reply<Parsed>)
      modifies this
      ensures (graph, r) == ParseSpec(old(graph), packList, registry, versionsOf)
      ensures temp == old(temp)
    {
      var raised := SeedPackages(packList);
      if raised {
        ExpandedFromRaised(Run(graph, None, true), packList, registry, versionsOf, |packList.keys|);
        return Failure;
      }
      var last;
      last, raised := ExpandPackages(packList, registry, versionsOf);
      if raised || last.None? {
        return Failure;
      }
      return Success((Adjacency(graph), graph.nodes[last.value]));
    }

    /** One pass of the loop of `conflict_check`, for package `node` and its record. */
    method CheckPackage(node: string, record: Record, evaluate: Evaluate) returns (raised: bool)
      modifies this
      ensures Sweep(graph, raised) == CheckNode(old(graph), node, record, evaluate)
      ensures temp == old(temp)
    {
      if !Readable(record) {
        return true;
      }
      var reqCondition := record["req_version"].text;
      var curVersion := record["cur_version"].text;
      var reqConds := Clauses(reqCondition);
      var check := EvaluateClauses(curVersion, reqConds, evaluate);
      if check.None? {
        return true;
      }
      if !check.value {
        if node !in graph.nodes {
          return true;
        }
        graph := SetAttr(graph, node, "flag", Flag(true));
      }
      return false;
    }

    /**
     * `conflict_check(self, packages)`: the graph and the reply are the ones
     * `ConflictSpec` describes, so `flag` is set on exactly the failing
     * packages and the reply never reports a conflict
     * (`Conflicts.ConflictCheckResult`).
     */
    method ConflictCheck(packages: Dict<Record>, evaluate: Evaluate) returns (r: Reply<bool>)
      modifies this
      ensures (graph, r) == ConflictSpec(old(graph), packages, evaluate)
      ensures temp == old(temp)
    {
      ghost var g0 := graph;
      var n := |packages.keys|;
      var i := 0;
      while i < n
        invariant 0 <= i <= n
        invariant Checked(g0, packages, evaluate, i) == Sweep(graph, false)
        invariant temp == old(temp)
      {
        var node := packages.keys[i];
        var next := i + 1;
        CheckedNext(g0, packages, evaluate, i, next);
        var raised := CheckPackage(node, packages.entries[node], evaluate);
        if raised {
          CheckedRaisedFinal(g0, packages, evaluate, next, n);
          return Failure;
        }
        i := next;
      }
      return Success(false);
    }
  }
}
