/**
 * The get-or-create loader of atlas2neo4j_v2.py: the classmethods of Node,
 * acting on the graph store. Each operation is specified by a pure
 * function from the store's contents before to its contents after (None
 * where the source aborts with sys.exit), and implemented by a method on
 * the store object that is proved to leave exactly that state.
 */
module GraphLoader {
  import opened Options
  import opened GraphStore

  /** Node._label: the label create gives every node. */
  const PhysvolLabel := "physvol"

  /** The relationship type create and createChild use. */
  const ChildRel := "CHILD"

  const PositionKey := "position"

  // ---------------------------------------------------------------------
  // getNodeFromDB

  /**
   * getNodeFromDB(id, label): the node with this label and volId if there is
   * exactly one; with none, and also with two or more, nothing.
   */
  function GetNodeFromDb(g: Graph, id: int, labelName: string): (r: Option<nat>)
    ensures r.Some? ==>
              && r.value < |g.nodes|
              && Matches(g.nodes[r.value], labelName, id)
              && forall j :: 0 <= j < |g.nodes| && Matches(g.nodes[j], labelName, id) ==> j == r.value
    ensures r.None? ==>
              forall i :: 0 <= i < |g.nodes| && Matches(g.nodes[i], labelName, id) ==>
                exists j :: 0 <= j < |g.nodes| && j != i && Matches(g.nodes[j], labelName, id)
  {
    var found := Find(g.nodes, labelName, id);
    FindUnique(g.nodes, labelName, id);
    if |found| == 1 then Some(found[0]) else None
  }

  /** Find's result, read as "exactly one match" or "no match without a second". */
  lemma FindUnique(ns: seq<GNode>, labelName: string, id: int)
    ensures var f := Find(ns, labelName, id);
            |f| == 1 ==>
              && f[0] < |ns| && Matches(ns[f[0]], labelName, id)
              && forall j :: 0 <= j < |ns| && Matches(ns[j], labelName, id) ==> j == f[0]
    ensures var f := Find(ns, labelName, id);
            |f| != 1 ==>
              forall i :: 0 <= i < |ns| && Matches(ns[i], labelName, id) ==>
                exists j :: 0 <= j < |ns| && j != i && Matches(ns[j], labelName, id)
  {
    var f := Find(ns, labelName, id);
    FindSpec(ns, labelName, id);
    if |f| == 1 {
      assert f[0] in f;
      forall j | 0 <= j < |ns| && Matches(ns[j], labelName, id)
        ensures j == f[0]
      {
        assert j in f;
      }
    } else {
      forall i | 0 <= i < |ns| && Matches(ns[i], labelName, id)
        ensures exists j :: 0 <= j < |ns| && j != i && Matches(ns[j], labelName, id)
      {
        assert i in f;
        assert f[0] in f && f[1] in f && f[0] < f[1];
        if i == f[0] {
          assert f[1] < |ns| && Matches(ns[f[1]], labelName, id);
        } else {
          assert f[0] < |ns| && Matches(ns[f[0]], labelName, id);
        }
      }
    }
  }

  // ---------------------------------------------------------------------
  // Specifications

  /** g' extends g: nodes and edges only appended, none changed. */
  predicate Grows(g: Graph, g': Graph)
  {
    && |g.nodes| <= |g'.nodes| && g'.nodes[..|g.nodes|] == g.nodes
    && |g.edges| <= |g'.edges| && g'.edges[..|g.edges|] == g.edges
  }

  /** The node a get-or-create makes: the label, and the properties given to node(). */
  function FreshNode(labelName: string, props: map<string, Prop>): GNode
  {
    GNode({labelName}, props)
  }

  function VolProps(id: int): map<string, Prop>
  {
    map[VolIdKey := IntProp(id)]
  }

  /**
   * The vol_node step every classmethod opens with: the node lookup finds,
   * or else a new node with this label and volId. Only a failed lookup
   * creates a node, and the node returned always carries the label and id.
   */
  function GetOrCreate(g: Graph, id: int, labelName: string): (r: (Graph, nat))
    ensures r.1 < |r.0.nodes| && Matches(r.0.nodes[r.1], labelName, id)
    ensures Grows(g, r.0) && r.0.edges == g.edges
    ensures |r.0.nodes| == |g.nodes| + (if GetNodeFromDb(g, id, labelName).None? then 1 else 0)
    ensures GetNodeFromDb(g, id, labelName).Some? ==> r == (g, GetNodeFromDb(g, id, labelName).value)
    ensures GetNodeFromDb(g, id, labelName).None? ==>
              r.1 == |g.nodes| && r.0.nodes == g.nodes + [GNode({labelName}, map[VolIdKey := IntProp(id)])]
    ensures Valid(g) ==> Valid(r.0)
  {
    match GetNodeFromDb(g, id, labelName)
    case Some(i) => (g, i)
    case None => (Graph(g.nodes + [FreshNode(labelName, VolProps(id))], g.edges), |g.nodes|)
  }

  /**
   * One child of create / createChild: a child the lookup misses is created
   * (with props) together with a CHILD edge from parent; a child it finds
   * gets a CHILD edge only if the store has none from parent to it.
   */
  function AttachChild(g: Graph, parent: nat, id: int, labelName: string, props: map<string, Prop>): Graph
  {
    match GetNodeFromDb(g, id, labelName)
    case None =>
      Graph(g.nodes + [FreshNode(labelName, props)], g.edges + [Edge(parent, ChildRel, |g.nodes|)])
    case Some(c) =>
      if EdgeCount(g.edges, Edge(parent, ChildRel, c)) == 0 then Graph(g.nodes, g.edges + [Edge(parent, ChildRel, c)])
      else g
  }

  /** The loop of create over the child ids, in order. */
  function AttachAll(g: Graph, parent: nat, ids: seq<int>): Graph
    decreases |ids|
  {
    if ids == [] then g
    else AttachAll(AttachChild(g, parent, ids[0], PhysvolLabel, VolProps(ids[0])), parent, ids[1..])
  }

  /** create(volId, *childIds): the store afterwards, and the parent node returned. */
  function CreateSpec(g: Graph, volId: int, childIds: seq<int>): (Graph, nat)
  {
    var (g1, p) := GetOrCreate(g, volId, PhysvolLabel);
    (AttachAll(g1, p, childIds), p)
  }

  function ChildProps(childId: int, position: int): map<string, Prop>
  {
    map[VolIdKey := IntProp(childId), PositionKey := IntProp(position)]
  }

  /** createChild(volId, childId, position, parentType, childType). */
  function CreateChildSpec(g: Graph, volId: int, childId: int, position: int, parentType: string, childType: string): (Graph, nat)
  {
    var (g1, p) := GetOrCreate(g, volId, parentType);
    (AttachChild(g1, p, childId, childType, ChildProps(childId, position)), p)
  }

  /**
   * addRel: None (the run aborts) unless both endpoints are found. Then a
   * new edge is created when none exists and unique is set, or when one
   * exists already and unique is not set; otherwise nothing changes.
   */
  function AddRelSpec(g: Graph, parentId: int, parentType: string, childId: int, childType: string,
                      relString: string, unique: bool): Option<Graph>
  {
    match (GetNodeFromDb(g, parentId, parentType), GetNodeFromDb(g, childId, childType))
    case (Some(p), Some(c)) =>
      var n := EdgeCount(g.edges, Edge(p, relString, c));
      if (n == 0 && unique) || (n > 0 && !unique) then Some(Graph(g.nodes, g.edges + [Edge(p, relString, c)]))
      else Some(g)
    case _ => None
  }

  /**
   * addPropertiesToNode: None (abort) if the node is not found; otherwise
   * its property map is updated with props, new values winning, and
   * nothing else changes.
   */
  function AddPropertiesSpec(g: Graph, volId: int, volType: string, props: map<string, Prop>): (r: Option<Graph>)
    ensures r.None? <==> GetNodeFromDb(g, volId, volType).None?
    ensures r.Some? ==>
              var i := GetNodeFromDb(g, volId, volType).value;
              && r.value.edges == g.edges
              && |r.value.nodes| == |g.nodes|
              && r.value.nodes[i].labels == g.nodes[i].labels
              && (forall key :: key in props ==> key in r.value.nodes[i].props && r.value.nodes[i].props[key] == props[key])
              && (forall key :: key !in props && key in g.nodes[i].props ==> key in r.value.nodes[i].props && r.value.nodes[i].props[key] == g.nodes[i].props[key])
              && r.value.nodes[i].props.Keys == g.nodes[i].props.Keys + props.Keys
              && (forall j :: 0 <= j < |g.nodes| && j != i ==> r.value.nodes[j] == g.nodes[j])
  {
    match GetNodeFromDb(g, volId, volType)
    case None => None
    case Some(i) => Some(Graph(g.nodes[i := GNode(g.nodes[i].labels, g.nodes[i].props + props)], g.edges))
  }

  /** The labels of a list, as a set. */
  function LabelSet(labels: seq<string>): set<string>
  {
    set l | l in labels
  }

  /**
   * addLabelsToNode: None (abort) if the node is not found; otherwise it
   * gains every label in the list, and nothing else changes.
   */
  function AddLabelsSpec(g: Graph, volId: int, volType: string, labels: seq<string>): (r: Option<Graph>)
    ensures r.None? <==> GetNodeFromDb(g, volId, volType).None?
    ensures r.Some? ==>
              var i := GetNodeFromDb(g, volId, volType).value;
              && r.value.edges == g.edges
              && |r.value.nodes| == |g.nodes|
              && r.value.nodes[i].props == g.nodes[i].props
              && (forall l :: l in r.value.nodes[i].labels <==> l in g.nodes[i].labels || l in labels)
              && (forall j :: 0 <= j < |g.nodes| && j != i ==> r.value.nodes[j] == g.nodes[j])
  {
    match GetNodeFromDb(g, volId, volType)
    case None => None
    case Some(i) => Some(Graph(g.nodes[i := GNode(g.nodes[i].labels + LabelSet(labels), g.nodes[i].props)], g.edges))
  }

  // ---------------------------------------------------------------------
  // The classmethods, on the store object

  /** The get-or-create of vol_node, as each classmethod does it: create, then add the label. */
  method GetOrCreateVol(db: GraphDb, id: int, labelName: string) returns (i: nat)
    modifies db
    ensures (db.State(), i) == GetOrCreate(old(db.State()), id, labelName)
  {
    var found := GetNodeFromDb(db.State(), id, labelName);
    if found.None? {
      i := db.CreateNode(VolProps(id));
      db.AddLabel(i, labelName);
      assert {} + {labelName} == {labelName};
      assert db.nodes == old(db.nodes) + [FreshNode(labelName, VolProps(id))];
    } else {
      i := found.value;
    }
  }

  /** The per-child body of create and createChild. */
  method AttachChildNode(db: GraphDb, parent: nat, id: int, labelName: string, props: map<string, Prop>)
    requires parent < |db.nodes|
    modifies db
    ensures db.State() == AttachChild(old(db.State()), parent, id, labelName, props)
    ensures |old(db.nodes)| <= |db.nodes|
  {
    var child := GetNodeFromDb(db.State(), id, labelName);
    if child.None? {
      var c := db.CreateNodeWithRel(props, parent, ChildRel);
      db.AddLabel(c, labelName);
      assert {} + {labelName} == {labelName};
    } else {
      var rels := EdgeCount(db.edges, Edge(parent, ChildRel, child.value));
      if rels == 0 {
        db.CreateRel(Edge(parent, ChildRel, child.value));
      }
    }
  }

  /** Node.create(volId, *childIds): returns the parent node. */
  method Create(db: GraphDb, volId: int, childIds: seq<int>) returns (parent: nat)
    modifies db
    ensures (db.State(), parent) == CreateSpec(old(db.State()), volId, childIds)
  {
    parent := GetOrCreateVol(db, volId, PhysvolLabel);
    ghost var start := db.State();
    var k := 0;
    while k < |childIds|
      invariant 0 <= k <= |childIds|
      invariant parent < |db.nodes|
      invariant AttachAll(db.State(), parent, childIds[k..]) == AttachAll(start, parent, childIds)
    {
      assert childIds[k..][1..] == childIds[k + 1..];
      AttachChildNode(db, parent, childIds[k], PhysvolLabel, VolProps(childIds[k]));
      k := k + 1;
    }
  }

  /** Node.createNode(volId, volType). */
  method CreateNode(db: GraphDb, volId: int, volType: string)
    modifies db
    ensures db.State() == GetOrCreate(old(db.State()), volId, volType).0
  {
    var _ := GetOrCreateVol(db, volId, volType);
  }

  /** Node.createChild(volId, childId, position, parentType, childType): returns the parent node. */
  method CreateChild(db: GraphDb, volId: int, childId: int, position: int, parentType: string, childType: string)
    returns (parent: nat)
    modifies db
    ensures (db.State(), parent) == CreateChildSpec(old(db.State()), volId, childId, position, parentType, childType)
  {
    parent := GetOrCreateVol(db, volId, parentType);
    AttachChildNode(db, parent, childId, childType, ChildProps(childId, position));
  }

  /** Node.createReferencedNode(volId, volType): the same get-or-create as createNode. */
  method CreateReferencedNode(db: GraphDb, volId: int, volType: string)
    modifies db
    ensures db.State() == GetOrCreate(old(db.State()), volId, volType).0
  {
    var _ := GetOrCreateVol(db, volId, volType);
  }

  /** Node.addRel: false when the run would abort (the store is then untouched). */
  method AddRel(db: GraphDb, parentId: int, parentType: string, childId: int, childType: string,
                relString: string, unique: bool) returns (ok: bool)
    modifies db
    ensures var r := AddRelSpec(old(db.State()), parentId, parentType, childId, childType, relString, unique);
            && (ok <==> r.Some?)
            && db.State() == (if ok then r.value else old(db.State()))
  {
    var parent := GetNodeFromDb(db.State(), parentId, parentType);
    var child := GetNodeFromDb(db.State(), childId, childType);
    if parent.Some? && child.Some? {
      var relation := EdgeCount(db.edges, Edge(parent.value, relString, child.value));
      if (relation == 0 && unique) || (relation > 0 && !unique) {
        db.CreateRel(Edge(parent.value, relString, child.value));
      }
      ok := true;
    } else {
      ok := false;
    }
  }

  /** Node.addPropertiesToNode: false when the run would abort (the store is then untouched). */
  method AddPropertiesToNode(db: GraphDb, volId: int, volType: string, properties: map<string, Prop>) returns (ok: bool)
    modifies db
    ensures var r := AddPropertiesSpec(old(db.State()), volId, volType, properties);
            && (ok <==> r.Some?)
            && db.State() == (if ok then r.value else old(db.State()))
  {
    var vol := GetNodeFromDb(db.State(), volId, volType);
    if vol.None? {
      return false;
    }
    db.UpdateProperties(vol.value, properties);
    ok := true;
  }

  /** Node.addLabelsToNode: adds the labels one at a time; false when the run would abort. */
  method AddLabelsToNode(db: GraphDb, volId: int, volType: string, labels: seq<string>) returns (ok: bool)
    modifies db
    ensures var r := AddLabelsSpec(old(db.State()), volId, volType, labels);
            && (ok <==> r.Some?)
            && db.State() == (if ok then r.value else old(db.State()))
  {
    var node := GetNodeFromDb(db.State(), volId, volType);
    if node.None? {
      return false;
    }
    var i := node.value;
    var k := 0;
    assert LabelSet(labels[..0]) == {};
    assert db.nodes[i].labels + {} == db.nodes[i].labels;
    assert GNode(db.nodes[i].labels, db.nodes[i].props) == db.nodes[i];
    while k < |labels|
      invariant 0 <= k <= |labels|
      invariant i < |db.nodes| == |old(db.nodes)|
      invariant db.edges == old(db.edges)
      invariant db.nodes == old(db.nodes)[i := GNode(old(db.nodes)[i].labels + LabelSet(labels[..k]), old(db.nodes)[i].props)]
    {
      assert LabelSet(labels[..k + 1]) == LabelSet(labels[..k]) + {labels[k]} by {
        assert labels[..k + 1] == labels[..k] + [labels[k]];
      }
      db.AddLabel(i, labels[k]);
      assert db.nodes[i].labels == old(db.nodes)[i].labels + LabelSet(labels[..k + 1]);
      k := k + 1;
    }
    assert labels[..k] == labels;
    ok := true;
  }
}
