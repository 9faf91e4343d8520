/**
 * The graph store the loader talks to (graph_db of atlas2neo4j_v2.py),
 * reduced to what the loader uses: nodes with a label set and a property
 * map, typed edges between them, and the find / match / create /
 * add_labels / update_properties operations. A node is named by its
 * position in the node sequence; nothing is ever deleted.
 */
module GraphStore {

  /** A property value: the loader stores integer ids and positions. */
  datatype Prop = IntProp(i: int) | StrProp(s: string)

  datatype GNode = GNode(labels: set<string>, props: map<string, Prop>)

  /** A relationship start -[relType]-> end, between node positions. */
  datatype Edge = Edge(start: nat, relType: string, end: nat)

  /** The store's contents. */
  datatype Graph = Graph(nodes: seq<GNode>, edges: seq<Edge>)

  /** The property key every loader node carries. */
  const VolIdKey := "volId"

  /** The node has this label and its volId property is id. */
  predicate Matches(n: GNode, labelName: string, id: int)
  {
    labelName in n.labels && VolIdKey in n.props && n.props[VolIdKey] == IntProp(id)
  }

  /** Every edge joins two existing nodes: what the store guarantees. */
  predicate Valid(g: Graph)
  {
    forall k :: 0 <= k < |g.edges| ==> g.edges[k].start < |g.nodes| && g.edges[k].end < |g.nodes|
  }

  /** find(label, "volId", id): the positions of the matching nodes, in store order. */
  function Find(ns: seq<GNode>, labelName: string, id: int): seq<nat>
    decreases |ns|
  {
    if ns == [] then []
    else Find(ns[..|ns| - 1], labelName, id) + (if Matches(ns[|ns| - 1], labelName, id) then [|ns| - 1] else [])
  }

  /** Find returns exactly the matching positions, each once, in increasing order. */
  lemma {:induction false} FindSpec(ns: seq<GNode>, labelName: string, id: int)
    ensures forall i :: i in Find(ns, labelName, id) <==> 0 <= i < |ns| && Matches(ns[i], labelName, id)
    ensures forall a, b :: 0 <= a < b < |Find(ns, labelName, id)| ==> Find(ns, labelName, id)[a] < Find(ns, labelName, id)[b]
    decreases |ns|
  {
    if ns != [] {
      var init, last := ns[..|ns| - 1], |ns| - 1;
      FindSpec(init, labelName, id);
      var f := Find(init, labelName, id);
      var tail: seq<nat> := if Matches(ns[last], labelName, id) then [last] else [];
      assert Find(ns, labelName, id) == f + tail;
      forall i
        ensures i in f + tail <==> 0 <= i < |ns| && Matches(ns[i], labelName, id)
      {
        if 0 <= i < last {
          assert init[i] == ns[i];
        }
      }
      forall a, b | 0 <= a < b < |f + tail|
        ensures (f + tail)[a] < (f + tail)[b]
      {
        if b >= |f| {
          assert (f + tail)[a] == f[a] && f[a] in f;
        }
      }
    }
  }

  /** Appending a node adds its position to Find exactly when it matches. */
  lemma FindAppend(ns: seq<GNode>, n: GNode, labelName: string, id: int)
    ensures Find(ns + [n], labelName, id) == Find(ns, labelName, id) + (if Matches(n, labelName, id) then [|ns|] else [])
  {
    assert (ns + [n])[..|ns|] == ns;
  }

  /** Changing node i leaves Find unchanged for every (label, id) that node matches both before and after or neither. */
  lemma {:induction false} FindUpdate(ns: seq<GNode>, i: nat, n: GNode, labelName: string, id: int)
    requires i < |ns| && (Matches(ns[i], labelName, id) <==> Matches(n, labelName, id))
    ensures Find(ns[i := n], labelName, id) == Find(ns, labelName, id)
    decreases |ns|
  {
    var ms := ns[i := n];
    if i < |ns| - 1 {
      assert ms[..|ms| - 1] == ns[..|ns| - 1][i := n];
      FindUpdate(ns[..|ns| - 1], i, n, labelName, id);
    } else {
      assert ms[..|ms| - 1] == ns[..|ns| - 1];
    }
  }

  /** match(start, end, relType), counted: how many copies of edge e the store holds. */
  function EdgeCount(es: seq<Edge>, e: Edge): nat
    decreases |es|
  {
    if es == [] then 0
    else EdgeCount(es[..|es| - 1], e) + (if es[|es| - 1] == e then 1 else 0)
  }

  lemma EdgeCountAppend(es: seq<Edge>, e: Edge, f: Edge)
    ensures EdgeCount(es + [e], f) == EdgeCount(es, f) + (if e == f then 1 else 0)
  {
    assert (es + [e])[..|es|] == es;
  }

  /** A positive count means the edge is in the store, and only then. */
  lemma {:induction false} EdgeCountSpec(es: seq<Edge>, e: Edge)
    ensures EdgeCount(es, e) > 0 <==> e in es
    decreases |es|
  {
    if es != [] {
      var init := es[..|es| - 1];
      EdgeCountSpec(init, e);
      assert es == init + [es[|es| - 1]];
    }
  }

  /** graph_db: the store, updated in place. */
  class GraphDb {
    var nodes: seq<GNode>
    var edges: seq<Edge>

    function State(): Graph
      reads this
    {
      Graph(nodes, edges)
    }

    /** An empty store. */
    constructor ()
      ensures State() == Graph([], []) && Valid(State())
    {
      nodes := [];
      edges := [];
    }

    /** create(node(**props)): a new unlabelled node, at the end; its position is returned. */
    method CreateNode(props: map<string, Prop>) returns (i: nat)
      modifies this
      ensures i == |old(nodes)|
      ensures nodes == old(nodes) + [GNode({}, props)] && edges == old(edges)
      ensures Valid(old(State())) ==> Valid(State())
    {
      i := |nodes|;
      nodes := nodes + [GNode({}, props)];
    }

    /**
     * create(node(**props), rel(parent, relType, 0)): a new unlabelled node
     * and one edge from parent to it, in one batch.
     */
    method CreateNodeWithRel(props: map<string, Prop>, parent: nat, relType: string) returns (i: nat)
      requires parent < |nodes|
      modifies this
      ensures i == |old(nodes)|
      ensures nodes == old(nodes) + [GNode({}, props)]
      ensures edges == old(edges) + [Edge(parent, relType, i)]
      ensures Valid(old(State())) ==> Valid(State())
    {
      i := |nodes|;
      nodes := nodes + [GNode({}, props)];
      edges := edges + [Edge(parent, relType, i)];
    }

    /** create(rel(start, relType, end)): one more edge, duplicates allowed. */
    method CreateRel(e: Edge)
      requires e.start < |nodes| && e.end < |nodes|
      modifies this
      ensures nodes == old(nodes) && edges == old(edges) + [e]
      ensures Valid(old(State())) ==> Valid(State())
    {
      edges := edges + [e];
    }

    /** node.add_labels(label): node i gains one label. */
    method AddLabel(i: nat, labelName: string)
      requires i < |nodes|
      modifies this
      ensures nodes == old(nodes)[i := GNode(old(nodes)[i].labels + {labelName}, old(nodes)[i].props)]
      ensures edges == old(edges)
      ensures Valid(old(State())) ==> Valid(State())
    {
      nodes := nodes[i := GNode(nodes[i].labels + {labelName}, nodes[i].props)];
    }

    /** node.update_properties(props): node i's map updated, the new values winning. */
    method UpdateProperties(i: nat, props: map<string, Prop>)
      requires i < |nodes|
      modifies this
      ensures nodes == old(nodes)[i := GNode(old(nodes)[i].labels, old(nodes)[i].props + props)]
      ensures edges == old(edges)
      ensures Valid(old(State())) ==> Valid(State())
    {
      nodes := nodes[i := GNode(nodes[i].labels, nodes[i].props + props)];
    }
  }
}
