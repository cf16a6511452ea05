/**
 * The controller's `networkx.DiGraph`, as the dependency controller uses it:
 * each node name carries an attribute dictionary, and the edges form a set of
 * ordered pairs, so a node or an edge can never be present twice.
 */
module Digraph {

  import opened PyData

  datatype Graph = Graph(nodes: map<string, Record>, edges: set<(string, string)>)

  /** The graph a new `nx.DiGraph()` starts as. */
  function EmptyGraph(): (g: Graph)
    ensures Closed(g) && g.nodes == map[] && g.edges == {}
  {
    Graph(map[], {})
  }

  /** Every edge joins two nodes of the graph, as `networkx` keeps it. */
  predicate Closed(g: Graph)
  {
    forall e <- g.edges :: e.0 in g.nodes && e.1 in g.nodes
  }

  /** `h` has every node and every edge of `g`. */
  predicate Grows(g: Graph, h: Graph)
  {
    g.nodes.Keys <= h.nodes.Keys && g.edges <= h.edges
  }

  /** `g.add_node(n, **attrs)`: a new node gets `attrs`, an existing one has `attrs` merged into its own. */
  function AddNode(g: Graph, n: string, attrs: Record): (r: Graph)
    ensures Closed(g) ==> Closed(r)
    ensures Grows(g, r) && n in r.nodes && r.edges == g.edges
    ensures forall m :: m in r.nodes && m != n ==> m in g.nodes && r.nodes[m] == g.nodes[m]
  {
    if n in g.nodes then Graph(g.nodes[n := g.nodes[n] + attrs], g.edges)
    else Graph(g.nodes[n := attrs], g.edges)
  }

  /** `g.nodes[n][key] = value` on a node that exists. */
  function SetAttr(g: Graph, n: string, key: string, value: Value): (r: Graph)
    requires n in g.nodes
    ensures Closed(g) ==> Closed(r)
    ensures r.nodes.Keys == g.nodes.Keys && r.edges == g.edges
    ensures key in r.nodes[n] && r.nodes[n][key] == value
    ensures forall k :: k in g.nodes[n] ==> k in r.nodes[n]
    ensures forall k :: k in r.nodes[n] && k != key ==> k in g.nodes[n] && r.nodes[n][k] == g.nodes[n][k]
    ensures forall m :: m in r.nodes && m != n ==> r.nodes[m] == g.nodes[m]
  {
    Graph(g.nodes[n := g.nodes[n][key := value]], g.edges)
  }

  /** `for key, val in attrs.items(): g.nodes[n][key] = val` on a node that exists. */
  function MergeInto(g: Graph, n: string, attrs: Record): (r: Graph)
    requires n in g.nodes
    ensures Closed(g) ==> Closed(r)
    ensures r.nodes.Keys == g.nodes.Keys && r.edges == g.edges
    ensures forall m :: m in r.nodes && m != n ==> r.nodes[m] == g.nodes[m]
  {
    Graph(g.nodes[n := g.nodes[n] + attrs], g.edges)
  }

  /** `g.add_edge(u, v)`: a missing end is added without attributes, and the edge is added once. */
  function AddEdge(g: Graph, u: string, v: string): (r: Graph)
    ensures Closed(g) ==> Closed(r)
    ensures Grows(g, r) && (u, v) in r.edges
    ensures forall e :: e in r.edges && e != (u, v) ==> e in g.edges
    ensures forall m :: m in g.nodes ==> r.nodes[m] == g.nodes[m]
    ensures forall m :: m in r.nodes ==> m in g.nodes || m == u || m == v
  {
    var withU := if u in g.nodes then g.nodes else g.nodes[u := map[]];
    var withV := if v in withU then withU else withU[v := map[]];
    Graph(withV, g.edges + {(u, v)})
  }

  /** Adding an edge that is already there changes nothing: edges are not duplicated. */
  lemma AddEdgeIdempotent(g: Graph, u: string, v: string)
    ensures AddEdge(AddEdge(g, u, v), u, v) == AddEdge(g, u, v)
  {
    var once := AddEdge(g, u, v);
    assert once.nodes.Keys == once.nodes.Keys + {u, v};
  }

  /**
   * `nx.to_dict_of_lists(g)`: each node with the set of its successors (the
   * lists' order is not modelled).
   */
  function Adjacency(g: Graph): (adj: map<string, set<string>>)
    ensures adj.Keys == g.nodes.Keys
    ensures Closed(g) ==> forall u, v :: u in adj ==> (v in adj[u] <==> (u, v) in g.edges)
  {
    map u | u in g.nodes :: set v | v in g.nodes && (u, v) in g.edges
  }
}
