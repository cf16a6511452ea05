/**
 * `DependencyController.parse_dependency_graph`: the packages of a pack list
 * are added to the controller's graph, then each package's requirements are
 * fetched and attached to it as nodes and `package -> requirement` edges.
 * Each function here is one loop (or one loop body) of that method, on the
 * state the loops carry.
 */
module GraphMerge {

  import opened Wrappers
  import opened PyData
  import opened Digraph
  import opened RequiresDist

  /**
   * The state between two loop passes: the graph, the requirement last bound
   * to the loop variable `req`, and whether an exception has been raised.
   */
  datatype Run = Run(graph: Graph, last: Option<string>, raised: bool)

  /** `get_requirements`'s registry request for `(package_name, curr_version)`. */
  type Registry = (Value, Value) -> Fetch

  /** The versions reply for a package name; `None` where it is not a dictionary, so `'versions' in temp` raises. */
  type VersionsOf = string -> Option<seq<string>>

  /** The success message: `nx.to_dict_of_lists(self.graph)` and `dict(self.graph.nodes[req])`. */
  type Parsed = (map<string, set<string>>, Record)

  predicate LastIsNode(st: Run)
  {
    st.last.Some? ==> st.last.value in st.graph.nodes
  }

  function Raise(st: Run): Run
  {
    st.(raised := true)
  }

  /**
   * One pass of the first loop: a package whose `package_name` is not yet a
   * node is added with its record as attributes, and the record is then
   * written onto the node named by the package's KEY, which raises when that
   * key is not a node.
   */
  function SeedStep(st: Run, package: string, content: Record): (r: Run)
    requires !st.raised
    ensures r.last == st.last
    ensures Grows(st.graph, r.graph) && r.graph.edges == st.graph.edges
    ensures Closed(st.graph) ==> Closed(r.graph)
  {
    if "package_name" !in content || !content["package_name"].Text? then Raise(st)
    else
      var name := content["package_name"].text;
      if name in st.graph.nodes then st
      else
        var added := AddNode(st.graph, name, content);
        if package !in added.nodes then Raise(st.(graph := added))
        else st.(graph := MergeInto(added, package, content))
  }

  /** The first loop over the first `n` packages; a raise ends it. */
  function Seeded(start: Run, packages: Dict<Record>, n: nat): (r: Run)
    requires n <= |packages.keys|
    ensures r.last == start.last
    ensures Grows(start.graph, r.graph) && r.graph.edges == start.graph.edges
    ensures Closed(start.graph) ==> Closed(r.graph)
  {
    if n == 0 then start
    else
      var prev := Seeded(start, packages, n - 1);
      if prev.raised then prev
      else SeedStep(prev, packages.keys[n - 1], packages.entries[packages.keys[n - 1]])
  }

  /**
   * One pass of the innermost loop, for requirement `req` of `package`. A new
   * requirement becomes a node without attributes, its record is written onto
   * the PARENT node `package`, and it gets the versions reply as
   * `list_versions`; an existing requirement only has `reqd_version`
   * overwritten. Either way the edge `package -> req` is added.
   */
  function Attach(st: Run, package: string, req: string, content: Record, versionsOf: VersionsOf): (r: Run)
    requires !st.raised
    ensures r.last == Some(req) && req in r.graph.nodes
    ensures Grows(st.graph, r.graph)
    ensures Closed(st.graph) ==> Closed(r.graph)
    ensures !r.raised ==> (package, req) in r.graph.edges
  {
    var bound := st.(last := Some(req));
    var g := st.graph;
    if req !in g.nodes then
      var added := AddNode(g, req, map[]);
      if content != map[] && package !in added.nodes then Raise(bound.(graph := added))
      else
        var merged := if content == map[] then added else MergeInto(added, package, content);
        match versionsOf(req)
        case None => Raise(bound.(graph := merged))
        case Some(versions) => bound.(graph := AddEdge(SetAttr(merged, req, "list_versions", TextList(versions)), package, req))
    else if "reqd_version" !in content then Raise(bound)
    else bound.(graph := AddEdge(SetAttr(g, req, "reqd_version", content["reqd_version"]), package, req))
  }

  /** The innermost loop over the first `m` requirements of `package`. */
  function Attached(st: Run, package: string, reqs: Dict<Record>, versionsOf: VersionsOf, m: nat): (r: Run)
    requires m <= |reqs.keys|
    ensures Grows(st.graph, r.graph)
    ensures Closed(st.graph) ==> Closed(r.graph)
    ensures LastIsNode(st) ==> LastIsNode(r)
  {
    if m == 0 then st
    else
      var prev := Attached(st, package, reqs, versionsOf, m - 1);
      if prev.raised then prev
      else Attach(prev, package, reqs.keys[m - 1], reqs.entries[reqs.keys[m - 1]], versionsOf)
  }

  /** The requirements reply for a package record: missing keys raise, and so does an error reply (it has no `message`). */
  function RequirementsFor(content: Record, registry: Registry): (r: Reply<Dict<Record>>)
    ensures r.Success? ==>
      && "package_name" in content && "curr_version" in content
      && registry(content["package_name"], content["curr_version"]).Fetched?
  {
    if "package_name" !in content || "curr_version" !in content then Failure
    else FetchedRequirements(registry(content["package_name"], content["curr_version"]))
  }

  /** One pass of the second loop, for `package` with record `content`. */
  function ExpandStep(st: Run, package: string, content: Record, registry: Registry, versionsOf: VersionsOf): (r: Run)
    requires !st.raised
    ensures Grows(st.graph, r.graph)
    ensures Closed(st.graph) ==> Closed(r.graph)
    ensures LastIsNode(st) ==> LastIsNode(r)
  {
    match RequirementsFor(content, registry)
    case Failure => Raise(st)
    case Success(reqs) => Attached(st, package, reqs, versionsOf, |reqs.keys|)
  }

  /** The second loop over the first `n` packages; a raise ends it. */
  function Expanded(start: Run, packages: Dict<Record>, registry: Registry, versionsOf: VersionsOf, n: nat): (r: Run)
    requires n <= |packages.keys|
    ensures Grows(start.graph, r.graph)
    ensures Closed(start.graph) ==> Closed(r.graph)
    ensures LastIsNode(start) ==> LastIsNode(r)
  {
    if n == 0 then start
    else
      var prev := Expanded(start, packages, registry, versionsOf, n - 1);
      if prev.raised then prev
      else ExpandStep(prev, packages.keys[n - 1], packages.entries[packages.keys[n - 1]], registry, versionsOf)
  }

  /**
   * The reply after the loops: failure on a raise, and also when no
   * requirement was ever bound to `req` (the return statement's `req` is then
   * unbound).
   */
  function Finish(st: Run): (r: Reply<Parsed>)
    requires LastIsNode(st)
    ensures r.Success? <==> !st.raised && st.last.Some?
    ensures r.Success? ==> r.message.0.Keys == st.graph.nodes.Keys && r.message.1 == st.graph.nodes[st.last.value]
    ensures r.Success? && Closed(st.graph) ==>
      forall u, v :: u in r.message.0 ==> (v in r.message.0[u] <==> (u, v) in st.graph.edges)
  {
    if st.raised || st.last.None? then Failure
    else Success((Adjacency(st.graph), st.graph.nodes[st.last.value]))
  }

  /** `parse_dependency_graph` on a graph and a pack list's `message`: the new graph and the reply. */
  function ParseSpec(graph: Graph, packages: Dict<Record>, registry: Registry, versionsOf: VersionsOf): (r: (Graph, Reply<Parsed>))
    ensures Grows(graph, r.0)
    ensures Closed(graph) ==> Closed(r.0)
  {
    var seeded := Seeded(Run(graph, None, false), packages, |packages.keys|);
    var done := Expanded(seeded, packages, registry, versionsOf, |packages.keys|);
    (done.graph, Finish(done))
  }

  // The next three lemmas unfold one loop pass, for the pass count `m`
  // and its predecessor `n` given as two variables.

  lemma SeededNext(start: Run, packages: Dict<Record>, n: nat, m: nat)
    requires m == n + 1 <= |packages.keys|
    ensures Seeded(start, packages, m) ==
      var prev := Seeded(start, packages, n);
      if prev.raised then prev else SeedStep(prev, packages.keys[n], packages.entries[packages.keys[n]])
  {
  }

  lemma AttachedNext(st: Run, package: string, reqs: Dict<Record>, versionsOf: VersionsOf, n: nat, m: nat)
    requires m == n + 1 <= |reqs.keys|
    ensures Attached(st, package, reqs, versionsOf, m) ==
      var prev := Attached(st, package, reqs, versionsOf, n);
      if prev.raised then prev else Attach(prev, package, reqs.keys[n], reqs.entries[reqs.keys[n]], versionsOf)
  {
  }

  lemma ExpandedNext(start: Run, packages: Dict<Record>, registry: Registry, versionsOf: VersionsOf, n: nat, m: nat)
    requires m == n + 1 <= |packages.keys|
    ensures Expanded(start, packages, registry, versionsOf, m) ==
      var prev := Expanded(start, packages, registry, versionsOf, n);
      if prev.raised then prev else ExpandStep(prev, packages.keys[n], packages.entries[packages.keys[n]], registry, versionsOf)
  {
  }

  /** Once the first loop has raised, later packages change nothing. */
  lemma {:induction false} SeededRaisedFinal(start: Run, packages: Dict<Record>, i: nat, n: nat)
    requires i <= n <= |packages.keys| && Seeded(start, packages, i).raised
    ensures Seeded(start, packages, n) == Seeded(start, packages, i)
    decreases n - i
  {
    if i < n {
      var k := n - 1;
      SeededRaisedFinal(start, packages, i, k);
      SeededNext(start, packages, k, n);
    }
  }

  /** Once the innermost loop has raised, later requirements change nothing. */
  lemma {:induction false} AttachedRaisedFinal(st: Run, package: string, reqs: Dict<Record>, versionsOf: VersionsOf, j: nat, m: nat)
    requires j <= m <= |reqs.keys| && Attached(st, package, reqs, versionsOf, j).raised
    ensures Attached(st, package, reqs, versionsOf, m) == Attached(st, package, reqs, versionsOf, j)
    decreases m - j
  {
    if j < m {
      var k := m - 1;
      AttachedRaisedFinal(st, package, reqs, versionsOf, j, k);
      AttachedNext(st, package, reqs, versionsOf, k, m);
    }
  }

  /** Once the second loop has raised, later packages change nothing. */
  lemma {:induction false} ExpandedRaisedFinal(start: Run, packages: Dict<Record>, registry: Registry, versionsOf: VersionsOf, i: nat, n: nat)
    requires i <= n <= |packages.keys| && Expanded(start, packages, registry, versionsOf, i).raised
    ensures Expanded(start, packages, registry, versionsOf, n) == Expanded(start, packages, registry, versionsOf, i)
    decreases n - i
  {
    if i < n {
      var k := n - 1;
      ExpandedRaisedFinal(start, packages, registry, versionsOf, i, k);
      ExpandedNext(start, packages, registry, versionsOf, k, n);
    }
  }

  /** When the first loop has raised, the second loop does not run. */
  lemma {:induction false} ExpandedFromRaised(start: Run, packages: Dict<Record>, registry: Registry, versionsOf: VersionsOf, n: nat)
    requires n <= |packages.keys| && start.raised
    ensures Expanded(start, packages, registry, versionsOf, n) == start
  {
    if n > 0 {
      var k := n - 1;
      ExpandedFromRaised(start, packages, registry, versionsOf, k);
      ExpandedNext(start, packages, registry, versionsOf, k, n);
    }
  }

  /** The package `content` names is a node of `g`. */
  predicate NamedNode(g: Graph, content: Record)
  {
    "package_name" in content && content["package_name"].Text? && content["package_name"].text in g.nodes
  }

  /**
   * An existing package node is not re-added: a package whose name is
   * already a node leaves the graph as it is.
   */
  lemma SeedExistingUnchanged(st: Run, package: string, content: Record)
    requires !st.raised && NamedNode(st.graph, content)
    ensures SeedStep(st, package, content) == st
  {
  }

  /**
   * A package whose name is new becomes a node carrying its record, and the
   * record is also written onto the node named by the package's key.
   */
  lemma SeedNewPackage(st: Run, package: string, content: Record)
    requires !st.raised && "package_name" in content && content["package_name"].Text?
    requires content["package_name"].text !in st.graph.nodes
    ensures var r := SeedStep(st, package, content);
      var name := content["package_name"].text;
      && (r.raised <==> package != name && package !in st.graph.nodes)
      && name in r.graph.nodes
      && (!r.raised && package != name ==> r.graph.nodes[name] == content && r.graph.nodes[package] == st.graph.nodes[package] + content)
      && (package == name ==> r.graph.nodes[name] == content)
  {
  }

  /** Each of the first `n` packages names a node of `g`. */
  predicate AllNamed(g: Graph, packages: Dict<Record>, n: nat)
    requires n <= |packages.keys|
  {
    n == 0 || (AllNamed(g, packages, n - 1) && NamedNode(g, packages.entries[packages.keys[n - 1]]))
  }

  lemma {:induction false} AllNamedGrows(g: Graph, h: Graph, packages: Dict<Record>, n: nat)
    requires n <= |packages.keys| && AllNamed(g, packages, n) && g.nodes.Keys <= h.nodes.Keys
    ensures AllNamed(h, packages, n)
  {
    if n > 0 {
      AllNamedGrows(g, h, packages, n - 1);
    }
  }

  lemma {:induction false} AllNamedAt(g: Graph, packages: Dict<Record>, n: nat, i: nat)
    requires i < n <= |packages.keys| && AllNamed(g, packages, n)
    ensures NamedNode(g, packages.entries[packages.keys[i]])
  {
    if i < n - 1 {
      AllNamedAt(g, packages, n - 1, i);
    }
  }

  /** A pass of the first loop that did not raise leaves its package's name a node. */
  lemma SeededStep(start: Run, packages: Dict<Record>, n: nat, m: nat)
    requires m == n + 1 <= |packages.keys| && !Seeded(start, packages, m).raised
    ensures !Seeded(start, packages, n).raised
    ensures Seeded(start, packages, n).graph.nodes.Keys <= Seeded(start, packages, m).graph.nodes.Keys
    ensures NamedNode(Seeded(start, packages, m).graph, packages.entries[packages.keys[n]])
  {
    SeededNext(start, packages, n, m);
  }

  lemma AllNamedNext(g: Graph, packages: Dict<Record>, n: nat, m: nat)
    requires m == n + 1 <= |packages.keys|
    ensures AllNamed(g, packages, m) <==> AllNamed(g, packages, n) && NamedNode(g, packages.entries[packages.keys[n]])
  {
  }

  /** After a first loop that did not raise, every package's name is a node. */
  lemma {:induction false} SeededNamesAreNodes(start: Run, packages: Dict<Record>, n: nat)
    requires n <= |packages.keys| && !Seeded(start, packages, n).raised
    ensures AllNamed(Seeded(start, packages, n).graph, packages, n)
  {
    if n > 0 {
      var k := n - 1;
      SeededStep(start, packages, k, n);
      var g := Seeded(start, packages, n).graph;
      SeededNamesAreNodes(start, packages, k);
      AllNamedGrows(Seeded(start, packages, k).graph, g, packages, k);
      AllNamedNext(g, packages, k, n);
    }
  }

  /** When every package's name is already a node, the first loop changes nothing. */
  lemma {:induction false} SeededAllPresent(st: Run, packages: Dict<Record>, n: nat)
    requires n <= |packages.keys| && !st.raised && AllNamed(st.graph, packages, n)
    ensures Seeded(st, packages, n) == st
  {
    if n > 0 {
      var k := n - 1;
      SeededNext(st, packages, k, n);
      AllNamedNext(st.graph, packages, k, n);
      SeededAllPresent(st, packages, k);
      SeedExistingUnchanged(st, packages.keys[k], packages.entries[packages.keys[k]]);
    }
  }

  /** Running the first loop again on its own result changes nothing. */
  lemma SeedingIdempotent(start: Run, packages: Dict<Record>)
    requires !Seeded(start, packages, |packages.keys|).raised
    ensures var once := Seeded(start, packages, |packages.keys|);
      Seeded(once, packages, |packages.keys|) == once
  {
    SeededNamesAreNodes(start, packages, |packages.keys|);
    SeededAllPresent(Seeded(start, packages, |packages.keys|), packages, |packages.keys|);
  }

  /** An existing requirement only has `reqd_version` overwritten, and gains the edge from `package`. */
  lemma AttachExistingRequirement(st: Run, package: string, req: string, content: Record, versionsOf: VersionsOf)
    requires !st.raised && req in st.graph.nodes && "reqd_version" in content
    ensures var r := Attach(st, package, req, content, versionsOf);
      && !r.raised
      && r.graph.nodes[req] == st.graph.nodes[req]["reqd_version" := content["reqd_version"]]
      && (forall m :: m in st.graph.nodes && m != req ==> r.graph.nodes[m] == st.graph.nodes[m])
      && r.graph.edges == st.graph.edges + {(package, req)}
  {
  }

  /**
   * A new requirement's record is written onto the PARENT: the requirement
   * node holds only `list_versions`, and the parent gains the requirement's
   * fields.
   */
  lemma AttachNewRequirement(st: Run, package: string, req: string, content: Record, versionsOf: VersionsOf)
    requires !st.raised && req !in st.graph.nodes && package in st.graph.nodes && content != map[]
    requires versionsOf(req).Some?
    ensures var r := Attach(st, package, req, content, versionsOf);
      && !r.raised
      && r.graph.nodes[req] == map["list_versions" := TextList(versionsOf(req).value)]
      && r.graph.nodes[package] == st.graph.nodes[package] + content
      && r.graph.edges == st.graph.edges + {(package, req)}
  {
    var added := AddNode(st.graph, req, map[]);
    assert added.nodes[req] == map[];
  }

  /** The first `m` keys, as a set. */
  function KeySet(keys: seq<string>, m: nat): set<string>
    requires m <= |keys|
  {
    if m == 0 then {} else KeySet(keys, m - 1) + {keys[m - 1]}
  }

  lemma {:induction false} KeySetHasKeys(keys: seq<string>, m: nat)
    requires m <= |keys|
    ensures forall i :: 0 <= i < m ==> keys[i] in KeySet(keys, m)
  {
    if m > 0 {
      KeySetHasKeys(keys, m - 1);
    }
  }

  lemma KeySetNext(keys: seq<string>, n: nat, m: nat)
    requires m == n + 1 <= |keys|
    ensures KeySet(keys, m) == KeySet(keys, n) + {keys[n]}
  {
  }

  /** A pass of the innermost loop that did not raise adds the edge to its requirement. */
  lemma AttachedStep(st: Run, package: string, reqs: Dict<Record>, versionsOf: VersionsOf, n: nat, m: nat)
    requires m == n + 1 <= |reqs.keys| && !Attached(st, package, reqs, versionsOf, m).raised
    ensures !Attached(st, package, reqs, versionsOf, n).raised
    ensures Attached(st, package, reqs, versionsOf, n).graph.edges <= Attached(st, package, reqs, versionsOf, m).graph.edges
    ensures (package, reqs.keys[n]) in Attached(st, package, reqs, versionsOf, m).graph.edges
  {
    AttachedNext(st, package, reqs, versionsOf, n, m);
  }

  /** After the innermost loop, `package` has an edge to each of its requirements. */
  lemma {:induction false} AttachedEdges(st: Run, package: string, reqs: Dict<Record>, versionsOf: VersionsOf, m: nat)
    requires m <= |reqs.keys| && !Attached(st, package, reqs, versionsOf, m).raised
    ensures forall req <- KeySet(reqs.keys, m) :: (package, req) in Attached(st, package, reqs, versionsOf, m).graph.edges
  {
    if m > 0 {
      var n := m - 1;
      AttachedStep(st, package, reqs, versionsOf, n, m);
      AttachedEdges(st, package, reqs, versionsOf, n);
      KeySetNext(reqs.keys, n, m);
    }
  }

  /** `package` fetched its requirements and has an edge in `g` to each of them. */
  predicate RequirementEdges(g: Graph, package: string, content: Record, registry: Registry)
  {
    && RequirementsFor(content, registry).Success?
    && forall req <- RequirementsFor(content, registry).message.keys :: (package, req) in g.edges
  }

  /** `RequirementEdges` for each of the first `n` packages. */
  predicate AllEdges(g: Graph, packages: Dict<Record>, registry: Registry, n: nat)
    requires n <= |packages.keys|
  {
    n == 0 || (AllEdges(g, packages, registry, n - 1) && RequirementEdges(g, packages.keys[n - 1], packages.entries[packages.keys[n - 1]], registry))
  }

  lemma {:induction false} AllEdgesGrow(g: Graph, h: Graph, packages: Dict<Record>, registry: Registry, n: nat)
    requires n <= |packages.keys| && AllEdges(g, packages, registry, n) && g.edges <= h.edges
    ensures AllEdges(h, packages, registry, n)
  {
    if n > 0 {
      AllEdgesGrow(g, h, packages, registry, n - 1);
    }
  }

  lemma {:induction false} AllEdgesAt(g: Graph, packages: Dict<Record>, registry: Registry, n: nat, i: nat)
    requires i < n <= |packages.keys| && AllEdges(g, packages, registry, n)
    ensures RequirementEdges(g, packages.keys[i], packages.entries[packages.keys[i]], registry)
  {
    if i < n - 1 {
      AllEdgesAt(g, packages, registry, n - 1, i);
    }
  }

  /** One pass of the second loop that did not raise attaches every requirement of its package. */
  lemma ExpandStepEdges(st: Run, package: string, content: Record, registry: Registry, versionsOf: VersionsOf)
    requires !st.raised && !ExpandStep(st, package, content, registry, versionsOf).raised
    ensures RequirementEdges(ExpandStep(st, package, content, registry, versionsOf).graph, package, content, registry)
  {
    var reqs := RequirementsFor(content, registry).message;
    var m := |reqs.keys|;
    AttachedEdges(st, package, reqs, versionsOf, m);
    KeySetHasKeys(reqs.keys, m);
    var r := ExpandStep(st, package, content, registry, versionsOf);
    forall req <- reqs.keys ensures (package, req) in r.graph.edges {
      var j :| 0 <= j < m && reqs.keys[j] == req;
      assert req in KeySet(reqs.keys, m);
    }
  }

  lemma {:induction false} ExpandedEdges(start: Run, packages: Dict<Record>, registry: Registry, versionsOf: VersionsOf, n: nat)
    requires n <= |packages.keys| && !Expanded(start, packages, registry, versionsOf, n).raised
    ensures AllEdges(Expanded(start, packages, registry, versionsOf, n).graph, packages, registry, n)
  {
    if n > 0 {
      var k := n - 1;
      ExpandedNext(start, packages, registry, versionsOf, k, n);
      var prev := Expanded(start, packages, registry, versionsOf, k);
      ExpandedEdges(start, packages, registry, versionsOf, k);
      ExpandStepEdges(prev, packages.keys[k], packages.entries[packages.keys[k]], registry, versionsOf);
      AllEdgesGrow(prev.graph, Expanded(start, packages, registry, versionsOf, n).graph, packages, registry, k);
    }
  }

  /**
   * On success every package fetched its requirements, and the graph has
   * the edge `package -> req` for each of them.
   */
  lemma ParseEdges(graph: Graph, packages: Dict<Record>, registry: Registry, versionsOf: VersionsOf)
    requires ParseSpec(graph, packages, registry, versionsOf).1.Success?
    ensures forall package <- packages.keys ::
      RequirementEdges(ParseSpec(graph, packages, registry, versionsOf).0, package, packages.entries[package], registry)
  {
    var seeded := Seeded(Run(graph, None, false), packages, |packages.keys|);
    var done := Expanded(seeded, packages, registry, versionsOf, |packages.keys|);
    ExpandedEdges(seeded, packages, registry, versionsOf, |packages.keys|);
    forall package <- packages.keys
      ensures RequirementEdges(done.graph, package, packages.entries[package], registry)
    {
      var i :| 0 <= i < |packages.keys| && packages.keys[i] == package;
      AllEdgesAt(done.graph, packages, registry, |packages.keys|, i);
    }
  }

  /** With no package at all, `req` is never bound: the graph is unchanged and the reply is a failure. */
  lemma ParseNothingFails(graph: Graph, registry: Registry, versionsOf: VersionsOf)
    ensures ParseSpec(graph, EmptyDict(), registry, versionsOf) == (graph, Failure)
  {
  }
}
