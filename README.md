# Dependency controller, modelled in Dafny

This project models the core of a dependency parser's back end: the
`DependencyController` class of `backend/controller.py`. It covers six pieces:

- **Requirement parsing.** `get_requirements` reads Python Core Metadata
  `Requires-Dist` entries of the form `name (spec)`. It drops entries that
  mention `extra` and builds one requirement record per name.
- **Release filtering.** `get_available_versions` drops release names that
  contain `r` and sorts the rest newest-first as strings.
- **Requirements-file parsing.** `upload_file` turns each non-empty
  `name==version` line of a requirements file into a pinned package record.
- **Environment filtering.** `process_packages` filters package records on
  their `condition` text against the user's `python_version`. This is a
  partial, string-based reading of the environment markers of PEP 508
  (section "Environment Markers").
- **Graph merge.** `parse_dependency_graph` adds a pack list's packages to the
  controller's directed graph. It then fetches each package's requirements
  and attaches them as nodes and `package -> requirement` edges.
- **Conflict check.** `conflict_check` splits each package's `req_version` on
  `,`. Each clause is a one-character operator plus a version. Each clause is
  evaluated against `cur_version`, and `flag` is set on the node of every
  package with a failing clause.

Two of these operations raise on every call as written, so the model
describes the loops they were evidently meant to run (see "Left out"):

- `upload_file` calls both `file.decode(...)` and `file.read()` on the same
  argument (lines 91-92). No object the caller passes has both, so every call
  ends in the error reply "Error processing the uploaded file". The model
  starts from the file's lines.
- `conflict_check` first builds `nx.from_dict_of_dicts(packages)` (line 201).
  That call treats each record's values as edge-attribute dictionaries, so it
  raises on every record the controller builds. The model starts the loop
  directly on the records.

## Modules

Modules follow the source's structure:

- **Helper modules.**
  - `Wrappers`: `Option` and the reply type `Reply`, either a success carrying
    a message or a failure.
  - `PyText`: the Python string operations the source relies on: `str.find`,
    `str.split`, `str.strip`, `in`, `startswith`, and string ordering.
  - `PyData`: Python values, truthiness, and insertion-ordered dictionaries
    (`Dict`).
  - `Digraph`: the `networkx.DiGraph` operations the controller uses.
- **Source operations.**
  - `RequiresDist`, `Releases`, `Upload` and `Markers` each cover one
    operation.
  - `GraphMerge` and `Conflicts` give the loops of `parse_dependency_graph`
    and `conflict_check` as functions over the state those loops carry.
  - `Controller` holds the `DependencyController` class. Its `graph` field is
    updated in place, and its methods are proved to produce exactly the graph
    and reply that those functions describe.

## Design choices

- **Dictionaries keep insertion order**, because iteration order matters in
  the source in three places:
  - the last duplicate wins in a dictionary;
  - attributes are merged onto a node in order;
  - the loop variable `req` stays bound after the loops.
- **Exceptions become `Failure`.** Where the operation has a `try` block,
  `Failure` is its error reply. `conflict_check` has no `try` block, so there
  `Failure` stands for the exception escaping to the caller, who gets no
  reply. Inside a loop, an exception is a "raised" flag. Once set, that flag
  stops every later step of the loop.
- **The network and `eval` are parameters.**
  - The PyPI registry becomes an abstract function from a package name and
    version to the `requires_dist` list, or a failure.
  - The versions provider becomes a function from a name to a version list,
    or to nothing where the reply is not a dictionary. Then the test
    `'versions' in temp` raises (line 162 of `parse_dependency_graph`, after
    the merge at lines 159-160; line 103 of `upload_file`).
  - `eval` of a clause becomes an abstract `evaluate` that returns a boolean,
    or nothing where the evaluation raises.

## Model

| member | source | states |
|---|---|---|
| PyText.FindIsLeftmost | backend/controller.py:97-98 | a substring search succeeds exactly when the separator occurs, and at its leftmost occurrence |
| PyText.SplitJoins | backend/controller.py:97-98 | `str.split(sep)` loses nothing: joining the pieces with `sep` gives the original text back |
| PyText.SplitPiecesAvoidSeparator | backend/controller.py:206 | no piece of a split contains the separator |
| PyText.SplitHasSecondPiece | backend/controller.py:98 | a split has a second piece (so index `[1]` does not raise) exactly when the separator occurs |
| PyText.Strip | backend/controller.py:228 | `str.strip()` is a slice of its input that leaves no whitespace at either end and removes only whitespace before and after it; it is no longer than its input and leaves a stripped text unchanged |
| PyText.TrimEndDropsSpaces | backend/controller.py:228 | everything removed from the back is whitespace |
| PyText.TrimBoth | backend/controller.py:228 | trimming the front and then the back leaves a slice with only whitespace on either side of it |
| PyText.StripUnique | backend/controller.py:228 | the stripped text is determined: two slices of a text, each with only whitespace removed around it and none left at its ends, are equal |
| PyText.TrimStartDropsSpaces | backend/controller.py:228 | everything removed from the front is whitespace |
| PyText.StripAllSpace | backend/controller.py:97 | an all-whitespace line strips to the empty text |
| PyText.Without | backend/controller.py:98 | `.replace('"', '')` leaves no `"`, keeps every other character as often as before, and changes a text without one not at all |
| PyText.WithoutConcat | backend/controller.py:98 | removing `"` from a concatenation is removing it from each part, so the other characters keep their order |
| PyText.LexLeTotal | backend/controller.py:77 | any two strings are ordered one way or the other, as `list.sort` compares them |
| PyText.LexLeTransitive | backend/controller.py:77 | string order is transitive |
| PyText.LexLeAntisymmetric | backend/controller.py:77 | two strings ordered both ways are equal |
| PyData.Put | backend/controller.py:44-50 | `d[k] = v` stores `v` under `k`; a new key goes to the end of the iteration order, an existing one keeps its place |
| PyData.AppendFresh | backend/controller.py:235 | storing under a key not yet present appends it to the order |
| RequiresDist.LazyNameLength | backend/controller.py:41 | the lazy group `(.+?)` takes the shortest name length at which the rest of the pattern fits, or none exists |
| RequiresDist.Match | backend/controller.py:41-43 | no match means no name length fits the pattern; a match gives a non-empty name without a line break that starts the entry and is followed by whitespace and `(`, and a specifier without `)` |
| RequiresDist.MatchIsLazyRegex | backend/controller.py:41-43 | an entry matches `^(.+?)\s\(([^)]*)\)` exactly when some split point fits; then the name is the shortest fitting prefix and the specifier the text inside the parentheses, up to the first `)` |
| RequiresDist.GetRequirements | backend/controller.py:37-51 | the loop builds the requirement dictionary entry by entry and returns the reply the requirement functions describe (failure on an unmatched entry) |
| RequiresDist.EmptyRequiresDist | backend/controller.py:37-38 | a missing or empty `requires_dist` gives a success with an empty requirement dictionary |
| RequiresDist.FailureIsFinal | backend/controller.py:55-57 | once an entry fails to match, the whole call is the error reply |
| RequiresDist.CollectFailIff | backend/controller.py:40-43 | the entries fail exactly when one of them is an unmatched non-`extra` entry |
| RequiresDist.RequirementsFailIff | backend/controller.py:40-43 | the call fails exactly when some entry without `extra` does not match the pattern |
| RequiresDist.CollectKeys | backend/controller.py:40-44 | on success a name is a key exactly when some kept entry names it |
| RequiresDist.RequirementsKeys | backend/controller.py:40-44 | on success the keys are exactly the regex names of the entries that do not mention `extra` |
| RequiresDist.CollectLastWins | backend/controller.py:44-50 | each key holds the record built from the last entry with that name |
| RequiresDist.RequirementsLastWins | backend/controller.py:44-50 | each key holds `package_name` = name, `curr_version` None, `list_versions` empty, `reqd_version` = the last such entry's specifier, `flag` False |
| Releases.Kept | backend/controller.py:75-76 | the kept release names are exactly those without an `r` |
| Releases.SortDescending | backend/controller.py:77 | `sort(reverse=True)` leaves the list newest-first (greatest string first) and a permutation of what it was |
| Releases.InsertDescending | backend/controller.py:77 | one insertion step extends the descending prefix by one element and permutes the array |
| Releases.AvailableVersions | backend/controller.py:72-78 | corrected reply: success, every version free of `r` and among the releases, descending, and a permutation of all kept release names |
| Releases.AvailableVersionsAsWritten | backend/controller.py:73-79 | the reply as written fails exactly when there is no release, and otherwise lists at most the first release, and only when it has no `r` |
| Releases.AsWrittenDropsLaterReleases | backend/controller.py:73-78 | for releases `2.0`, `1.0` the intended reply is `2.0, 1.0`, while the loop as written returns `2.0` alone |
| Releases.DescendingPermutationUnique | backend/controller.py:77 | the sorted reply is determined: two descending permutations of the same names are equal |
| Upload.Clean | backend/controller.py:98 | `.replace('"', '').strip()` is the stripped form of the text with every `"` removed: no `"`, no whitespace at either end |
| Upload.ParseLine | backend/controller.py:97-98 | a parsed line gives a name without `==` and a version without `"`; `None` is the index `[1]` raising |
| Upload.UploadFile | backend/controller.py:95-109 | the loop over lines builds the dictionary line by line and returns the reply the upload functions describe |
| Upload.PinLine | backend/controller.py:96-105 | one loop pass: skip a blank line, fail on a malformed line or a missing versions reply, otherwise store the pinned record |
| Upload.FailureIsFinal | backend/controller.py:108-109 | once a line fails, the whole upload is the failure reply |
| Upload.ParseLineSucceedsIff | backend/controller.py:97-98 | a line parses exactly when its stripped text contains `==` |
| Upload.ParseLineFields | backend/controller.py:97-98 | the name is the text before the first `==` (it contains no `==`) and the version is the cleaned piece after `name==` |
| Upload.ParseLineRoundTrip | backend/controller.py:97-98 | a line `name==version` with a clean name and version parses back to exactly `(name, version)` |
| Upload.WhitespaceLineIsMalformed | backend/controller.py:96-98 | a non-empty line of whitespace passes `if line:` and then raises on index `[1]` |
| Upload.CollectPinsFailIff | backend/controller.py:95-109 | the upload fails exactly when a line is malformed or the versions lookup for its name gives no dictionary |
| Upload.CollectPinsKeys | backend/controller.py:95-100 | on success a name is a key exactly when a pinned line carries it |
| Upload.CollectPinsLastWins | backend/controller.py:99-105 | each key holds `package_name`, the last such line's `curr_version`, the provider's `list_versions`, empty `reqd_versions` and `flag` False |
| Upload.BlankLinesIgnored | backend/controller.py:96 | inserting an empty line anywhere changes nothing |
| Upload.UploadedKeys | backend/controller.py:95-107 | on success the keys are exactly the names of the non-empty lines that parse |
| Upload.RejectedLineIff | backend/controller.py:96-103 | a line is rejected exactly when it is malformed or its versions lookup gives nothing |
| Upload.UploadedFailIff | backend/controller.py:95-109 | the upload fails exactly when some line is rejected |
| Markers.ProcessPackages | backend/controller.py:225-239 | the method returns the reply the filter functions describe |
| Markers.FilterPackages | backend/controller.py:225-236 | the loop over packages builds the filtered dictionary in iteration order |
| Markers.FilterPackage | backend/controller.py:226-235 | one loop pass extends the filtered prefix by the verdict on one package |
| Markers.FilterOne | backend/controller.py:227-234 | the branch structure of the loop body gives exactly the verdict `Decide` states |
| Markers.VerdictAt | backend/controller.py:226-227 | the verdicts follow the packages in iteration order |
| Markers.FailureIsFinal | backend/controller.py:237-239 | once a package raises, the whole call is the failure reply |
| Markers.FilteredIsSubDict | backend/controller.py:225-235 | the filtered dictionary holds exactly the kept names, each with its unchanged record |
| Markers.ProcessKeepsExactly | backend/controller.py:225-236 | on success the reply is a sub-dictionary of the input: a name is kept exactly when its verdict is keep, with the same record, and none is added |
| Markers.FilteredFailIff | backend/controller.py:237-239 | the filter fails exactly when some verdict is a raise |
| Markers.ProcessFailIff | backend/controller.py:227-239 | `process_packages` fails exactly when some package's verdict raises |
| Markers.AllKeptKeys | backend/controller.py:225-236 | when every package is kept, the keys come out in the input's order |
| Markers.UnsetPythonVersionKeepsAll | backend/controller.py:227 | with a falsy `python_version` the reply is the input itself |
| Markers.EmptyConditionKept | backend/controller.py:227 | a package whose `condition` is falsy is always kept |
| Markers.Decide | backend/controller.py:227-234 | a missing `python_version` raises, a falsy one keeps the package, and a dropped package has a non-empty text `condition` |
| Markers.ConditionVerdict | backend/controller.py:228-234 | only a condition starting with `python` or `extra` is dropped or raises, and it raises only when it starts with `python` and has no `=` |
| Markers.DecideByCondition | backend/controller.py:227-228 | with both set, the verdict depends on the stripped condition alone |
| Markers.ExtraConditionDropped | backend/controller.py:233-234 | a condition starting with `extra` is dropped |
| Markers.PythonCondition | backend/controller.py:229-232 | a `python` condition raises exactly when it has no `=`, and otherwise is kept exactly when its text between the first and second `=` equals `python_version` |
| Markers.SplitSecondField | backend/controller.py:230 | `condition.split("=")[1]` is the text between the first and the second `=` |
| Markers.DoubleEqualsConditionDropped | backend/controller.py:229-232 | a condition written `python…==version` is always dropped, since the text between its two `=` is empty |
| Digraph.EmptyGraph | backend/controller.py:23 | a new `nx.DiGraph()` has no nodes and no edges |
| Digraph.AddNode | backend/controller.py:148 | `add_node` makes the name a node, adds no edge and leaves other nodes alone |
| Digraph.SetAttr | backend/controller.py:165 | `nodes[n][key] = value` sets one attribute of one node, keeps that node's other attributes and changes nothing else |
| Digraph.MergeInto | backend/controller.py:149-150 | merging attributes into one node keeps the node set, the edges and every other node |
| Digraph.AddEdge | backend/controller.py:166 | `add_edge(u, v)` adds that edge and its missing ends only, leaving existing attributes alone |
| Digraph.AddEdgeIdempotent | backend/controller.py:166 | re-adding an edge changes nothing: edges are never duplicated |
| Digraph.Adjacency | backend/controller.py:169 | `to_dict_of_lists` has one entry per node, and each holds exactly that node's successors |
| GraphMerge.SeedStep | backend/controller.py:147-150 | one pass of the first loop only adds nodes, never edges |
| GraphMerge.Seeded | backend/controller.py:146-150 | the first loop only adds nodes, keeps the edges and keeps every edge between nodes |
| GraphMerge.Attach | backend/controller.py:154-166 | attaching a requirement makes it a node and the last bound `req`, and adds the edge `(package, req)` unless it raised |
| GraphMerge.Attached | backend/controller.py:153-166 | the innermost loop only grows the graph and keeps every edge between nodes |
| GraphMerge.ExpandStep | backend/controller.py:152-166 | one pass of the second loop only grows the graph |
| GraphMerge.Expanded | backend/controller.py:151-166 | the second loop only grows the graph, and a bound `req` stays a node |
| GraphMerge.RequirementsFor | backend/controller.py:152 | a requirements reply is obtained only when the record has `package_name` and `curr_version` and the registry fetch succeeded |
| GraphMerge.Finish | backend/controller.py:169 | the reply succeeds exactly when nothing raised and `req` was bound; it holds one adjacency entry per node, each listing that node's successors, and the attributes of the last bound `req` |
| GraphMerge.ParseSpec | backend/controller.py:145-172 | `parse_dependency_graph` never removes a node or an edge, and keeps every edge between nodes |
| GraphMerge.SeededRaisedFinal | backend/controller.py:170-172 | an exception in the first loop ends it: later packages change nothing |
| GraphMerge.AttachedRaisedFinal | backend/controller.py:170-172 | an exception in the innermost loop ends it |
| GraphMerge.ExpandedRaisedFinal | backend/controller.py:170-172 | an exception in the second loop ends it |
| GraphMerge.ExpandedFromRaised | backend/controller.py:170-172 | after an exception in the first loop, the second loop does nothing |
| GraphMerge.SeedExistingUnchanged | backend/controller.py:147 | a package whose name is already a node is not re-added, and nothing changes |
| GraphMerge.SeedNewPackage | backend/controller.py:147-150 | a new package name becomes a node holding its record; the record is also merged into the node keyed `package`, which raises when that node is missing |
| GraphMerge.SeededNamesAreNodes | backend/controller.py:146-148 | after the first loop every package's name is a node |
| GraphMerge.SeededAllPresent | backend/controller.py:147 | when every package's name is already a node, the first loop changes nothing |
| GraphMerge.SeedingIdempotent | backend/controller.py:146-150 | running the first loop twice gives the same graph as running it once |
| GraphMerge.AttachExistingRequirement | backend/controller.py:164-166 | a requirement that is already a node only has `reqd_version` overwritten, and the edge is added |
| GraphMerge.AttachNewRequirement | backend/controller.py:154-166 | a new requirement node holds only `list_versions`, and the requirement's fields are merged onto the parent `package` node |
| GraphMerge.AttachedEdges | backend/controller.py:153-166 | without an exception, the innermost loop leaves an edge from `package` to each requirement |
| GraphMerge.ExpandStepEdges | backend/controller.py:152-166 | without an exception, a package has an edge to each of its fetched requirements |
| GraphMerge.ExpandedEdges | backend/controller.py:151-166 | without an exception, every package seen so far keeps an edge to each of its requirements |
| GraphMerge.ParseEdges | backend/controller.py:145-169 | on success, every package of the pack list has an edge to each of its fetched requirements |
| GraphMerge.ParseNothingFails | backend/controller.py:169 | an empty pack list fails, because `req` was never bound, and leaves the graph as it was |
| Conflicts.ClauseSplits | backend/controller.py:209-210 | the operator is at most the first character, and operator plus version is the clause |
| Conflicts.TwoCharacterOperator | backend/controller.py:209-210 | `>=2.0` splits into the operator `>` and the version `=2.0` |
| Conflicts.ClauseText | backend/controller.py:211 | the evaluated text is the current version followed by the whole clause |
| Conflicts.Clauses | backend/controller.py:206 | the clauses are the pieces of `req_version` split on `,`: at least one, none containing `,`, and they join back to it |
| Conflicts.Holds | backend/controller.py:207-212 | when `check` is computed without an exception, every clause so far was evaluated without raising |
| Conflicts.Verdict | backend/controller.py:204-212 | a package's clauses are judged only when its `req_version` and `cur_version` are text |
| Conflicts.VerdictSomeIff | backend/controller.py:204-212 | a package is judged without an exception exactly when both fields are text and no clause's evaluation raises |
| Conflicts.HoldsTrueIff | backend/controller.py:207-212 | `check` stays true exactly when every clause evaluates to true |
| Conflicts.HoldsNoneIff | backend/controller.py:207-212 | the evaluation raises exactly when some clause's evaluation raises |
| Conflicts.HoldsFalseIff | backend/controller.py:207-212 | `check` ends false exactly when every clause evaluates and at least one is false |
| Conflicts.HoldsRaisedFinal | backend/controller.py:208-211 | once an evaluation raises, the remaining clauses change nothing |
| Conflicts.CheckNode | backend/controller.py:204-214 | one pass changes at most its own node, keeps nodes and edges, and leaves the graph alone when it raises |
| Conflicts.Checked | backend/controller.py:203-214 | the loop keeps the nodes and edges, and never clears a `flag` |
| Conflicts.ConflictSpec | backend/controller.py:201-217 | the call returns `conflict: False` or the exception escapes (`Failure`), the nodes and edges are kept, and no `flag` is cleared |
| Conflicts.CheckedRaisedFinal | backend/controller.py:203-214 | an exception ends the loop |
| Conflicts.FailingAmongIff | backend/controller.py:203-214 | a node has failed so far exactly when it is among the packages seen and its clauses fail |
| Conflicts.CheckNodeExact | backend/controller.py:204-214 | without an exception, a pass sets `flag` on its node exactly when a clause fails and touches no other node |
| Conflicts.CheckedExact | backend/controller.py:203-214 | without an exception, after `n` packages exactly the failing ones among them have `flag` set |
| Conflicts.CheckedRaisesIff | backend/controller.py:203-214 | the loop raises exactly when some package's `req_version` or `cur_version` is missing or not text, a clause raises, or a failing package has no node |
| Conflicts.ConflictCheckResult | backend/controller.py:203-217 | the exception escapes (`Failure`) exactly when some pass raises; otherwise `flag` is set on exactly the failing packages, all else is kept, and the reply is `conflict: False` |
| Conflicts.BuiltRecordsStop | backend/controller.py:204-205 | records built by `get_requirements` and `upload_file` lack `req_version`/`cur_version`, so checking them raises |
| Controller.EvaluateClauses | backend/controller.py:207-212 | the `check` loop computes the conjunction `Holds` describes, stopping at the first evaluation that raises |
| Controller.DependencyController.constructor | backend/controller.py:20-23 | a new controller has `temp` 0 and an empty graph |
| Controller.DependencyController.MergeAttributes | backend/controller.py:149-150 | the item-by-item attribute loop leaves the node holding its old attributes overridden by the new ones, and nothing else changed |
| Controller.DependencyController.SeedPackage | backend/controller.py:147-150 | one pass of the first loop, in place, gives the graph and exception status `SeedStep` describes |
| Controller.DependencyController.AttachRequirement | backend/controller.py:154-166 | one requirement, in place, gives the graph, bound `req` and exception status `Attach` describes |
| Controller.DependencyController.AttachRequirements | backend/controller.py:153-166 | the innermost loop, in place, gives the state `Attached` describes |
| Controller.DependencyController.FetchRequirements | backend/controller.py:152 | the requirements reply for a package record, failing where `package_name` or `curr_version` is missing, the fetch fails or an entry does not match |
| Controller.DependencyController.SeedPackages | backend/controller.py:146-150 | the first loop, in place, gives the state `Seeded` describes |
| Controller.DependencyController.ExpandPackages | backend/controller.py:151-166 | the second loop, in place, gives the state `Expanded` describes |
| Controller.DependencyController.ParseDependencyGraph | backend/controller.py:145-172 | the controller's graph and the reply are exactly those of `ParseSpec`, so the properties proved in `GraphMerge` hold of the method |
| Controller.DependencyController.CheckPackage | backend/controller.py:204-214 | one pass of the check loop, in place, gives the graph and exception status `CheckNode` describes |
| Controller.DependencyController.ConflictCheck | backend/controller.py:203-217 | the controller's graph and the reply are exactly those of `ConflictSpec`, so `ConflictCheckResult` holds of the method |

## Left out

- **Network and JSON decoding.** The PyPI fetches of `get_requirements` and
  `get_available_versions` (URL building, status codes, timeouts, JSON
  decoding) are modelled as parameters.
  - `get_requirements` takes the `requires_dist` value, or `None` where it is
    missing.
  - The graph merge takes a registry function that gives either that value or
    a fetch failure.
- **Logging.** All `logger` calls and `backend/config.py` are left out.
- **`backend/server.py`.** The web server, CORS and argument parsing are left
  out.
- **File decoding.** `upload_file`'s `file.decode(...)` and `file.read()` are
  left out. The model takes the list of lines. As written, lines 91-92 call
  `.decode` and then `.read` on the same argument. A bytes object has no
  `.read` and a file object has no `.decode`, so every call ends in the
  error reply. `Upload.UploadFile` describes the loop that follows them.
- **`create_dag`.** It is not part of this model:
  - it calls `.lower()` on a dictionary;
  - it calls `add_edge` with one argument;
  - it returns inside its loop;
  so it has no coherent behaviour to state.
- **`check_recurse_requirements`.** It is not part of this model. It reads
  `content` before assigning it, and otherwise repeats the inner loop of
  `parse_dependency_graph`.
- **`eval`.** The `eval(cur_version+op+ver)` of `conflict_check` executes
  Python text, which has no faithful semantics here. It is an abstract
  `evaluate` that gives a boolean or raises. The conjunction and the `flag`
  structure are proved for every such function.
- **Versions provider in the graph merge.**
  - As written, `parse_dependency_graph` looks up `['message']` in
    `get_available_versions`' reply (line 156). That reply has no such key, so
    the lookup would always raise. The model leaves this lookup out.
  - The model takes the provider as a function giving a version list, or
    nothing where the reply is not a dictionary. Then `'versions' in temp`
    raises at line 162, after the requirement's fields were merged onto
    `package` at lines 159-160. `GraphMerge.Attach` returns that merged graph
    with the raised flag.
  - `Upload` uses the same function for `temp['versions']`.
- **`.keys` in `get_available_versions`.** Line 73 iterates over `.keys`
  without calling it. The model reads it as the call `.keys()`. Iterating a
  bound method would raise and give the `fail; network error` reply.
- **Conflict check graph.** `conflict_check` builds a graph with
  `nx.from_dict_of_dicts(packages)` and writes `self.graph[node]['flag']`. It
  is modelled as intended:
  - each package's record is read directly;
  - `flag` is set as an attribute of the package's node in the controller's
    graph.

  Under `networkx` itself, both indexings go through adjacency views. As
  written, line 201 raises before the loop on every record the controller
  builds: `from_dict_of_dicts` passes each record value to `dict.update`, so
  `flag: False` raises `TypeError` and a non-empty text raises `ValueError`.
- `ConflictSpec`/`ConflictCheck`: `Failure` stands for the exception escaping
  `conflict_check`, which has no `try` block; the caller gets no reply.
- **Records the check reads.** `conflict_check` reads `req_version` and
  `cur_version`. The records built by `get_requirements` and `upload_file`
  carry `reqd_version`, `curr_version` and `reqd_versions` instead, so
  checking them always raises (`Conflicts.BuiltRecordsStop`).
- **`staticmethod`.** `parse_dependency_graph` and `conflict_check` are
  declared `staticmethod` but take `self`. They are modelled as methods of
  the controller object.
- **Pack list envelope.** The `pack_list['message']` envelope is left out.
  The method takes the message dictionary itself.
- **Package names.** The graph merge reads `content['package_name']` as a node
  name. A value that is not text is treated as raising, so unhashable or
  non-string names are not distinguished.
- **Adjacency order.** `Digraph.Adjacency` gives each node's successors as a
  set. The order of `to_dict_of_lists`' lists is not modelled.
- **`temp` field.** The controller's `temp` field is modelled only as the 0
  the constructor sets. No modelled method changes it.
- **Dictionary keys.** Python dictionaries and records are keyed by text
  only.

## Findings

| source | as written | input that shows it | evidently intended | confidence | as-written member | corrected member |
|---|---|---|---|---|---|---|
| backend/controller.py:73-78 | `versions.sort(reverse=True)` and the success `return` are indented inside the `for` loop, so the reply is built from the first release key alone | releases `2.0`, `1.0`: the reply lists only `2.0` | every release key is examined, and the kept ones are sorted once after the loop | not executed | Releases.AsWrittenDropsLaterReleases | Releases.AvailableVersions |
