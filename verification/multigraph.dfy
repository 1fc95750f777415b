/**
 * The part of a networkx `MultiDiGraph` that `load_network` relies on:
 * `add_nodes_from` with `(node, attribute dict)` records and
 * `add_edges_from` with `(u, v, attribute dict)` records.
 *
 * Nodes are kept in insertion order, each with its attribute dict; adding a
 * node that is already present updates its dict (`dict.update`, later
 * values win). Adding an edge first adds either endpoint that is missing,
 * with an empty dict, then appends the edge: parallel edges are kept, so
 * nothing is deduplicated.
 */
module MultiGraph {

  /** The value stored under an edge's "distance" attribute. */
  datatype Distance = Whole(seconds: int) | Fractional(amount: real)

  /** A `(node, attribute dict)` record. */
  datatype NodeRec = NodeRec(id: string, attrs: map<string, string>)

  /** A `(u, v, {"distance": d})` record. */
  datatype EdgeRec = EdgeRec(u: string, v: string, distance: Distance)

  /** The observable state of a multigraph. */
  datatype Graph = Graph(nodes: seq<string>, attrs: map<string, map<string, string>>, edges: seq<EdgeRec>)

  const EMPTY: Graph := Graph([], map[], [])

  /** Nodes are listed once each, carry a dict, and every edge joins two nodes. */
  predicate Valid(g: Graph) {
    && (forall i, j :: 0 <= i < j < |g.nodes| ==> g.nodes[i] != g.nodes[j])
    && (forall n :: n in g.attrs ==> n in g.nodes)
    && (forall n :: n in g.nodes ==> n in g.attrs)
    && (forall e :: e in g.edges ==> e.u in g.attrs && e.v in g.attrs)
  }

  lemma EmptyValid()
    ensures Valid(EMPTY)
  {
  }

  function AddNode(g: Graph, id: string, attrs: map<string, string>): Graph {
    if id in g.attrs then g.(attrs := g.attrs[id := g.attrs[id] + attrs])
    else g.(nodes := g.nodes + [id], attrs := g.attrs[id := attrs])
  }

  /** `add_nodes_from`: the records are added one after the other. */
  function AddNodes(g: Graph, recs: seq<NodeRec>): Graph {
    if |recs| == 0 then g
    else
      var last := recs[|recs| - 1];
      AddNode(AddNodes(g, recs[..|recs| - 1]), last.id, last.attrs)
  }

  /** A missing endpoint is created with an empty attribute dict. */
  function EnsureNode(g: Graph, id: string): Graph {
    if id in g.attrs then g else g.(nodes := g.nodes + [id], attrs := g.attrs[id := map[]])
  }

  function AddEdge(g: Graph, e: EdgeRec): Graph {
    var withEnds := EnsureNode(EnsureNode(g, e.u), e.v);
    withEnds.(edges := withEnds.edges + [e])
  }

  /** `add_edges_from`: the records are added one after the other. */
  function AddEdges(g: Graph, recs: seq<EdgeRec>): Graph {
    if |recs| == 0 then g
    else AddEdge(AddEdges(g, recs[..|recs| - 1]), recs[|recs| - 1])
  }

  lemma AddNodeValid(g: Graph, id: string, attrs: map<string, string>)
    requires Valid(g)
    ensures Valid(AddNode(g, id, attrs))
  {
  }

  lemma EnsureNodeValid(g: Graph, id: string)
    requires Valid(g)
    ensures Valid(EnsureNode(g, id)) && id in EnsureNode(g, id).attrs
  {
  }

  /** Adding nodes keeps the graph valid and leaves the edges alone. */
  lemma {:induction false} AddNodesSpec(g: Graph, recs: seq<NodeRec>)
    requires Valid(g)
    ensures Valid(AddNodes(g, recs))
    ensures AddNodes(g, recs).edges == g.edges
  {
    if |recs| > 0 {
      var init := recs[..|recs| - 1];
      AddNodesSpec(g, init);
      AddNodeValid(AddNodes(g, init), recs[|recs| - 1].id, recs[|recs| - 1].attrs);
    }
  }

  /** Adding nodes adds exactly the records' ids. */
  lemma {:induction false} AddNodesMembers(g: Graph, recs: seq<NodeRec>)
    ensures forall n :: n in AddNodes(g, recs).attrs <==> n in g.attrs || exists i :: 0 <= i < |recs| && recs[i].id == n
  {
    if |recs| > 0 {
      var init := recs[..|recs| - 1];
      AddNodesMembers(g, init);
      assert forall i :: 0 <= i < |init| ==> init[i] == recs[i];
    }
  }

  /** `n` is an endpoint of one of the records. */
  predicate IsEndpoint(recs: seq<EdgeRec>, n: string) {
    exists e :: e in recs && (e.u == n || e.v == n)
  }

  lemma AddEdgeValid(g: Graph, e: EdgeRec)
    requires Valid(g)
    ensures Valid(AddEdge(g, e))
  {
  }

  /** One edge adds its missing endpoints and nothing else; present dicts are untouched. */
  lemma AddEdgeNodes(g: Graph, e: EdgeRec)
    ensures forall n :: n in AddEdge(g, e).attrs <==> n in g.attrs || n == e.u || n == e.v
    ensures forall n :: n in g.attrs ==> AddEdge(g, e).attrs[n] == g.attrs[n]
  {
  }

  /** Adding edges keeps the graph valid and appends every record, in order: none is dropped or merged. */
  lemma {:induction false} AddEdgesSpec(g: Graph, recs: seq<EdgeRec>)
    requires Valid(g)
    ensures Valid(AddEdges(g, recs))
    ensures AddEdges(g, recs).edges == g.edges + recs
  {
    if |recs| > 0 {
      var init := recs[..|recs| - 1];
      AddEdgesSpec(g, init);
      AddEdgeValid(AddEdges(g, init), recs[|recs| - 1]);
      assert recs == init + [recs[|recs| - 1]];
    }
  }

  /**
   * The only nodes adding edges creates are endpoints, and the attribute
   * dicts of nodes already present are untouched.
   */
  lemma {:induction false} AddEdgesNodes(g: Graph, recs: seq<EdgeRec>)
    ensures forall n :: n in AddEdges(g, recs).attrs <==> n in g.attrs || IsEndpoint(recs, n)
    ensures forall n :: n in g.attrs ==> n in AddEdges(g, recs).attrs && AddEdges(g, recs).attrs[n] == g.attrs[n]
  {
    if |recs| > 0 {
      var init := recs[..|recs| - 1];
      var last := recs[|recs| - 1];
      AddEdgesNodes(g, init);
      AddEdgeNodes(AddEdges(g, init), last);
      assert recs == init + [last];
      forall n
        ensures IsEndpoint(recs, n) <==> IsEndpoint(init, n) || n == last.u || n == last.v
      {
        if IsEndpoint(recs, n) {
          var e :| e in recs && (e.u == n || e.v == n);
          if e != last {
            assert e in init;
          }
        }
        if IsEndpoint(init, n) {
          var e :| e in init && (e.u == n || e.v == n);
          assert e in recs;
        }
        if n == last.u || n == last.v {
          assert last in recs;
        }
      }
    }
  }

  /** The attribute key sets of every record are the same set `keys`. */
  predicate UniformKeys(recs: seq<NodeRec>, keys: set<string>) {
    forall i :: 0 <= i < |recs| ==> recs[i].attrs.Keys == keys
  }

  /** Adding nodes whose dicts all have keys `keys` keeps every dict's keys within `keys`. */
  lemma {:induction false} AddNodesKeysWithin(g: Graph, recs: seq<NodeRec>, keys: set<string>)
    requires UniformKeys(recs, keys)
    requires forall n :: n in g.attrs ==> g.attrs[n].Keys <= keys
    ensures forall n :: n in AddNodes(g, recs).attrs ==> AddNodes(g, recs).attrs[n].Keys <= keys
  {
    if |recs| > 0 {
      AddNodesKeysWithin(g, recs[..|recs| - 1], keys);
    }
  }

  /**
   * When every record carries the same attribute keys, a node's dict is
   * that of the LAST record with its id (each update overwrites all keys).
   */
  lemma {:induction false} AddNodesLastWins(g: Graph, recs: seq<NodeRec>, keys: set<string>, i: nat)
    requires UniformKeys(recs, keys)
    requires forall n :: n in g.attrs ==> g.attrs[n].Keys <= keys
    requires i < |recs|
    requires forall j :: i < j < |recs| ==> recs[j].id != recs[i].id
    ensures recs[i].id in AddNodes(g, recs).attrs
    ensures AddNodes(g, recs).attrs[recs[i].id] == recs[i].attrs
  {
    var init := recs[..|recs| - 1];
    var h := AddNodes(g, init);
    if i == |recs| - 1 {
      AddNodesKeysWithin(g, init, keys);
      if recs[i].id in h.attrs {
        var merged := h.attrs[recs[i].id] + recs[i].attrs;
        assert merged.Keys == recs[i].attrs.Keys;
        assert merged == recs[i].attrs;
      }
    } else {
      AddNodesLastWins(g, init, keys, i);
    }
  }

  /** The networkx object: its three fields are the `Graph` value it holds. */
  class MultiDiGraph {
    var nodes: seq<string>
    var attrs: map<string, map<string, string>>
    var edges: seq<EdgeRec>

    function Value(): Graph
      reads this
    {
      Graph(nodes, attrs, edges)
    }

    constructor ()
      ensures Value() == EMPTY
    {
      nodes, attrs, edges := [], map[], [];
    }

    method AddNodesFrom(recs: seq<NodeRec>)
      modifies this
      ensures Value() == AddNodes(old(Value()), recs)
      ensures Valid(old(Value())) ==> Valid(Value())
    {
      var i := 0;
      while i < |recs|
        invariant 0 <= i <= |recs|
        invariant Value() == AddNodes(old(Value()), recs[..i])
      {
        var r := recs[i];
        if r.id in attrs {
          attrs := attrs[r.id := attrs[r.id] + r.attrs];
        } else {
          nodes := nodes + [r.id];
          attrs := attrs[r.id := r.attrs];
        }
        assert recs[..i + 1][..i] == recs[..i];
        i := i + 1;
      }
      assert recs[..|recs|] == recs;
      if Valid(old(Value())) {
        AddNodesSpec(old(Value()), recs);
      }
    }

    method AddEdgesFrom(recs: seq<EdgeRec>)
      modifies this
      ensures Value() == AddEdges(old(Value()), recs)
      ensures Valid(old(Value())) ==> Valid(Value())
    {
      var i := 0;
      while i < |recs|
        invariant 0 <= i <= |recs|
        invariant Value() == AddEdges(old(Value()), recs[..i])
      {
        var e := recs[i];
        if e.u !in attrs {
          nodes := nodes + [e.u];
          attrs := attrs[e.u := map[]];
        }
        if e.v !in attrs {
          nodes := nodes + [e.v];
          attrs := attrs[e.v := map[]];
        }
        edges := edges + [e];
        assert recs[..i + 1][..i] == recs[..i];
        i := i + 1;
      }
      assert recs[..|recs|] == recs;
      if Valid(old(Value())) {
        AddEdgesSpec(old(Value()), recs);
      }
    }
  }
}
