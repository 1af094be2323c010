/** The directed graph the analyzers fill with `add_edge`: nodes in insertion order, and
    for every node its successors and its predecessors, each in insertion order and each
    listed once. */
module Graphs {
  import opened OrderedDict

  datatype Graph = Graph(nodes: seq<string>, succ: map<string, seq<string>>, pred: map<string, seq<string>>)
  {
    /** `add_edge(u, v)`: add `u`, then `v`, if new, then record `v` among the successors
        of `u` and `u` among the predecessors of `v`. */
    function AddEdge(u: string, v: string): Graph
      requires Valid(this)
    {
      Link(AddNode(AddNode(this, u), v), u, v)
    }
  }

  /** `nx.DiGraph()` */
  function Empty(): (g: Graph)
    ensures Valid(g)
  {
    Graph([], map[], map[])
  }

  /** There is an edge from `u` to `v`. */
  predicate HasEdge(g: Graph, u: string, v: string) {
    u in g.succ && v in g.succ[u]
  }

  /** The graph invariant: the node sequence lists each node once and the two adjacency
      maps have exactly the nodes as keys; adjacency lists have no repeats and mention
      only nodes; and `v` follows `u` exactly when `u` precedes `v`. */
  ghost predicate Valid(g: Graph) {
    NodesOk(g) && ListsOk(g) && Symmetric(g)
  }

  ghost predicate NodesOk(g: Graph) {
    && Distinct(g.nodes)
    && (forall n :: n in g.succ <==> n in g.nodes)
    && (forall n :: n in g.pred <==> n in g.nodes)
  }

  ghost predicate ListsOk(g: Graph) {
    && (forall u :: u in g.succ ==> Distinct(g.succ[u]))
    && (forall v :: v in g.pred ==> Distinct(g.pred[v]))
  }

  ghost predicate Symmetric(g: Graph) {
    && (forall u, v :: u in g.succ && v in g.succ[u] ==> v in g.pred && u in g.pred[v])
    && (forall u, v :: v in g.pred && u in g.pred[v] ==> u in g.succ && v in g.succ[u])
  }

  /** `s` with `x` appended unless already present. */
  function Append(s: seq<string>, x: string): (r: seq<string>)
    ensures forall y :: y in r <==> y in s || y == x
    ensures Distinct(s) ==> Distinct(r)
  {
    if x in s then s else s + [x]
  }

  /** Adding a node that is not yet present, with empty adjacency. */
  function AddNode(g: Graph, n: string): Graph {
    if n in g.succ then g else Graph(g.nodes + [n], g.succ[n := []], g.pred[n := []])
  }

  /** A node added, if new, keeps the invariant and goes last. */
  lemma AddNodeValid(g: Graph, n: string)
    requires Valid(g)
    ensures Valid(AddNode(g, n)) && n in AddNode(g, n).succ && n in AddNode(g, n).pred
    ensures AddNode(g, n).nodes == AddNew(g.nodes, [n])
    ensures forall a, b :: HasEdge(AddNode(g, n), a, b) <==> HasEdge(g, a, b)
  {
    assert [n][1..] == [];
    AddNodeLists(g, n);
    AddNodeSymmetric(g, n);
  }

  lemma AddNodeLists(g: Graph, n: string)
    requires ListsOk(g)
    ensures ListsOk(AddNode(g, n))
  {
  }

  lemma AddNodeSymmetric(g: Graph, n: string)
    requires NodesOk(g) && Symmetric(g)
    ensures Symmetric(AddNode(g, n))
  {
  }

  /** Recording `v` as a successor of `u` and `u` as a predecessor of `v`. */
  function Link(g: Graph, u: string, v: string): Graph
    requires u in g.succ && v in g.pred
  {
    Graph(g.nodes, g.succ[u := Append(g.succ[u], v)], g.pred[v := Append(g.pred[v], u)])
  }

  lemma LinkValid(g: Graph, u: string, v: string)
    requires Valid(g) && u in g.succ && v in g.pred
    ensures Valid(Link(g, u, v))
  {
    LinkSymmetric(g, u, v);
  }

  lemma LinkSymmetric(g: Graph, u: string, v: string)
    requires NodesOk(g) && Symmetric(g) && u in g.succ && v in g.pred
    ensures Symmetric(Link(g, u, v))
  {
    var g2 := Link(g, u, v);
    forall a, b | a in g2.succ && b in g2.succ[a] ensures b in g2.pred && a in g2.pred[b] {
      if a != u || b != v {
        assert b in g.succ[a];
      }
    }
    forall a, b | b in g2.pred && a in g2.pred[b] ensures a in g2.succ && b in g2.succ[a] {
      if a != u || b != v {
        assert a in g.pred[b];
      }
    }
  }

  lemma LinkEdges(g: Graph, u: string, v: string)
    requires u in g.succ && v in g.pred
    ensures forall a, b :: HasEdge(Link(g, u, v), a, b) <==> HasEdge(g, a, b) || (a == u && b == v)
  {
  }

  /** One edge keeps the invariant, adds exactly the edge `u -> v`, and adds exactly the
      nodes `u` and `v`, in that order, each if new. */
  lemma AddEdgeFacts(g: Graph, u: string, v: string)
    requires Valid(g)
    ensures Valid(g.AddEdge(u, v))
    ensures forall a, b :: HasEdge(g.AddEdge(u, v), a, b) <==> HasEdge(g, a, b) || (a == u && b == v)
    ensures g.AddEdge(u, v).nodes == AddNew(g.nodes, [u, v])
  {
    AddNodeValid(g, u);
    AddNodeValid(AddNode(g, u), v);
    AddEdgeSteps(g, AddNode(AddNode(g, u), v), u, v);
  }

  lemma AddEdgeSteps(g: Graph, g1: Graph, u: string, v: string)
    requires Valid(g) && Valid(g1) && g1 == AddNode(AddNode(g, u), v)
    requires u in g1.succ && v in g1.pred
    requires g1.nodes == AddNew(AddNew(g.nodes, [u]), [v])
    requires forall a, b :: HasEdge(g1, a, b) <==> HasEdge(g, a, b)
    ensures Valid(g.AddEdge(u, v))
    ensures forall a, b :: HasEdge(g.AddEdge(u, v), a, b) <==> HasEdge(g, a, b) || (a == u && b == v)
    ensures g.AddEdge(u, v).nodes == AddNew(g.nodes, [u, v])
  {
    assert g.AddEdge(u, v) == Link(g1, u, v);
    LinkValid(g1, u, v);
    LinkEdges(g1, u, v);
    AddNewAppend(g.nodes, [u], [v]);
    assert [u] + [v] == [u, v];
  }

  /** Adding the edges of `es` in order. */
  function AddEdges(g: Graph, es: seq<(string, string)>): (r: Graph)
    requires Valid(g)
    ensures Valid(r)
    decreases |es|
  {
    if |es| == 0 then g
    else
      AddEdgeFacts(g, es[0].0, es[0].1);
      AddEdges(g.AddEdge(es[0].0, es[0].1), es[1..])
  }

  /** Adding `a + b` is adding `a`, then `b`. */
  lemma {:induction false} AddEdgesAppend(g: Graph, a: seq<(string, string)>, b: seq<(string, string)>)
    requires Valid(g)
    ensures AddEdges(g, a + b) == AddEdges(AddEdges(g, a), b)
    decreases |a|
  {
    if |a| > 0 {
      assert (a + b)[0] == a[0] && (a + b)[1..] == a[1..] + b;
      AddEdgeFacts(g, a[0].0, a[0].1);
      AddEdgesAppend(g.AddEdge(a[0].0, a[0].1), a[1..], b);
    } else {
      assert a + b == b;
    }
  }

  /** One more edge at the end. */
  lemma AddEdgesSnoc(g: Graph, es: seq<(string, string)>, u: string, v: string)
    requires Valid(g)
    ensures AddEdges(g, es + [(u, v)]) == AddEdges(g, es).AddEdge(u, v)
  {
    AddEdgesAppend(g, es, [(u, v)]);
    var h := AddEdges(g, es);
    AddEdgeFacts(h, u, v);
    assert [(u, v)][1..] == [];
  }

  /** The end points of `es`, source before target, edge by edge. */
  function Endpoints(es: seq<(string, string)>): (r: seq<string>)
    ensures |r| == 2 * |es|
    decreases |es|
  {
    if |es| == 0 then [] else [es[0].0, es[0].1] + Endpoints(es[1..])
  }

  /** After adding `es`: the edges are the old ones and those of `es`, with repeats
      collapsed; the nodes are the old ones followed by the new end points in order of
      first appearance, so only an edge brings a node in. */
  lemma {:induction false} AddEdgesFacts(g: Graph, es: seq<(string, string)>)
    requires Valid(g)
    ensures forall a, b :: HasEdge(AddEdges(g, es), a, b) <==> HasEdge(g, a, b) || (a, b) in es
    ensures AddEdges(g, es).nodes == AddNew(g.nodes, Endpoints(es))
    decreases |es|
  {
    if |es| > 0 {
      var e := es[0];
      AddEdgeFacts(g, e.0, e.1);
      AddEdgesFacts(g.AddEdge(e.0, e.1), es[1..]);
      assert forall x :: x in es <==> x == e || x in es[1..];
      AddNewAppend(g.nodes, [e.0, e.1], Endpoints(es[1..]));
    }
  }

  /** The graph built from `es` alone. */
  lemma FromEdges(es: seq<(string, string)>)
    ensures Valid(AddEdges(Empty(), es))
    ensures forall a, b :: HasEdge(AddEdges(Empty(), es), a, b) <==> (a, b) in es
    ensures AddEdges(Empty(), es).nodes == AddNew([], Endpoints(es))
    ensures forall n :: n in AddEdges(Empty(), es).nodes <==> n in Endpoints(es)
  {
    AddEdgesFacts(Empty(), es);
    AddNewElems([], Endpoints(es));
  }

  /** `nx.DiGraph`, mutated in place by `add_edge`. */
  class DiGraph {
    var nodes: seq<string>
    var succ: map<string, seq<string>>
    var pred: map<string, seq<string>>

    function State(): Graph
      reads this
    {
      Graph(nodes, succ, pred)
    }

    constructor ()
      ensures State() == Empty()
    {
      nodes, succ, pred := [], map[], map[];
    }

    method AddEdge(u: string, v: string)
      requires Valid(State())
      modifies this
      ensures State() == old(State()).AddEdge(u, v)
    {
      ghost var g := State();
      AddNodeValid(g, u);
      AddNodeValid(AddNode(g, u), v);
      if u !in succ {
        nodes, succ, pred := nodes + [u], succ[u := []], pred[u := []];
      }
      assert State() == AddNode(g, u);
      if v !in succ {
        nodes, succ, pred := nodes + [v], succ[v := []], pred[v := []];
      }
      assert State() == AddNode(AddNode(g, u), v);
      if v !in succ[u] {
        succ := succ[u := succ[u] + [v]];
      }
      if u !in pred[v] {
        pred := pred[v := pred[v] + [u]];
      }
    }
  }
}
