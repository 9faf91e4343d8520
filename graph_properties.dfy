/**
 * What the loader's operations guarantee about the store: create leaves
 * every requested node linked to its parent, a new child comes with one
 * CHILD edge and a found child gains one only if it had none, running
 * create or createChild twice changes nothing the second time, and addRel
 * changes the count of exactly one relationship, as its unique flag says.
 */
module GraphProperties {
  import opened Options
  import opened GraphStore
  import opened GraphLoader

  /** The store holds a node with this label and id and a CHILD edge from p to it. */
  ghost predicate Linked(g: Graph, p: nat, labelName: string, id: int)
  {
    exists j :: 0 <= j < |g.nodes| && Matches(g.nodes[j], labelName, id) && Edge(p, ChildRel, j) in g.edges
  }

  /** The properties give the node this volId. */
  predicate CarriesId(props: map<string, Prop>, id: int)
  {
    VolIdKey in props && props[VolIdKey] == IntProp(id)
  }

  lemma GrowsTrans(a: Graph, b: Graph, c: Graph)
    requires Grows(a, b) && Grows(b, c)
    ensures Grows(a, c)
  {
    assert c.nodes[..|a.nodes|] == c.nodes[..|b.nodes|][..|a.nodes|];
    assert c.edges[..|a.edges|] == c.edges[..|b.edges|][..|a.edges|];
  }

  lemma LinkedGrows(g: Graph, g': Graph, p: nat, labelName: string, id: int)
    requires Grows(g, g') && Linked(g, p, labelName, id)
    ensures Linked(g', p, labelName, id)
  {
    var j :| 0 <= j < |g.nodes| && Matches(g.nodes[j], labelName, id) && Edge(p, ChildRel, j) in g.edges;
    assert g'.nodes[j] == g'.nodes[..|g.nodes|][j];
    var k :| 0 <= k < |g.edges| && g.edges[k] == Edge(p, ChildRel, j);
    assert g'.edges[k] == g'.edges[..|g.edges|][k];
  }

  /**
   * One child of create: a child the lookup misses becomes a new node with
   * exactly one CHILD edge from the parent; a child it finds keeps its node,
   * and its CHILD edges from the parent become one if there were none and
   * stay as they were otherwise. The store only grows and stays valid.
   */
  lemma AttachChildEdges(g: Graph, parent: nat, id: int, labelName: string, props: map<string, Prop>)
    requires Valid(g) && parent < |g.nodes|
    ensures var g' := AttachChild(g, parent, id, labelName, props);
            && Valid(g') && Grows(g, g')
            && (GetNodeFromDb(g, id, labelName).None? ==>
                  && g'.nodes == g.nodes + [FreshNode(labelName, props)]
                  && g'.edges == g.edges + [Edge(parent, ChildRel, |g.nodes|)]
                  && EdgeCount(g'.edges, Edge(parent, ChildRel, |g.nodes|)) == 1)
            && (GetNodeFromDb(g, id, labelName).Some? ==>
                  var e := Edge(parent, ChildRel, GetNodeFromDb(g, id, labelName).value);
                  var n := EdgeCount(g.edges, e);
                  && g'.nodes == g.nodes
                  && EdgeCount(g'.edges, e) == (if n == 0 then 1 else n)
                  && |g'.edges| == |g.edges| + (if n == 0 then 1 else 0))
  {
    var g' := AttachChild(g, parent, id, labelName, props);
    match GetNodeFromDb(g, id, labelName)
    case None =>
      var e := Edge(parent, ChildRel, |g.nodes|);
      EdgeCountSpec(g.edges, e);
      EdgeCountAppend(g.edges, e, e);
      assert g'.nodes[..|g.nodes|] == g.nodes && g'.edges[..|g.edges|] == g.edges;
    case Some(c) =>
      var e := Edge(parent, ChildRel, c);
      EdgeCountAppend(g.edges, e, e);
      assert g'.edges[..|g.edges|] == g.edges;
  }

  /** After one child of create, that child is linked to the parent. */
  lemma AttachChildLinks(g: Graph, parent: nat, id: int, labelName: string, props: map<string, Prop>)
    requires Valid(g) && parent < |g.nodes| && CarriesId(props, id)
    ensures Linked(AttachChild(g, parent, id, labelName, props), parent, labelName, id)
  {
    var g' := AttachChild(g, parent, id, labelName, props);
    match GetNodeFromDb(g, id, labelName)
    case None =>
      assert g'.nodes[|g.nodes|] == FreshNode(labelName, props);
      assert g'.edges[|g.edges|] == Edge(parent, ChildRel, |g.nodes|);
    case Some(c) =>
      var e := Edge(parent, ChildRel, c);
      EdgeCountSpec(g.edges, e);
      if EdgeCount(g.edges, e) == 0 {
        assert g'.edges[|g.edges|] == e;
      }
  }

  /** The loop of create keeps the store valid and growing, and links every child id. */
  lemma {:induction false} AttachAllLinks(g: Graph, parent: nat, ids: seq<int>)
    requires Valid(g) && parent < |g.nodes|
    ensures var g' := AttachAll(g, parent, ids);
            && Valid(g') && Grows(g, g')
            && forall id :: id in ids ==> Linked(g', parent, PhysvolLabel, id)
    decreases |ids|
  {
    if ids == [] {
      assert g.nodes[..|g.nodes|] == g.nodes && g.edges[..|g.edges|] == g.edges;
    } else {
      var g1 := AttachChild(g, parent, ids[0], PhysvolLabel, VolProps(ids[0]));
      AttachChildEdges(g, parent, ids[0], PhysvolLabel, VolProps(ids[0]));
      AttachChildLinks(g, parent, ids[0], PhysvolLabel, VolProps(ids[0]));
      AttachAllLinks(g1, parent, ids[1..]);
      var g' := AttachAll(g, parent, ids);
      GrowsTrans(g, g1, g');
      LinkedGrows(g1, g', parent, PhysvolLabel, ids[0]);
      forall id | id in ids
        ensures Linked(g', parent, PhysvolLabel, id)
      {
        if id != ids[0] {
          assert id in ids[1..];
        }
      }
    }
  }

  /**
   * create(volId, *childIds): afterwards the returned parent is a physvol
   * node with that volId, every child id has a physvol node with a CHILD
   * edge from the parent, nothing was removed or changed, and the store is
   * still valid.
   */
  lemma CreateEstablishes(g: Graph, volId: int, childIds: seq<int>)
    requires Valid(g)
    ensures var (g', p) := CreateSpec(g, volId, childIds);
            && Valid(g') && Grows(g, g')
            && p < |g'.nodes| && Matches(g'.nodes[p], PhysvolLabel, volId)
            && forall id :: id in childIds ==> Linked(g', p, PhysvolLabel, id)
  {
    var (g1, p) := GetOrCreate(g, volId, PhysvolLabel);
    AttachAllLinks(g1, p, childIds);
    var g' := AttachAll(g1, p, childIds);
    GrowsTrans(g, g1, g');
    assert g'.nodes[p] == g'.nodes[..|g1.nodes|][p];
  }

  /**
   * createChild: afterwards the returned parent has the parent type and
   * volId, the child is linked to it under the child type, and a child
   * the lookup missed was created with that label, its volId and its
   * position.
   */
  lemma CreateChildEstablishes(g: Graph, volId: int, childId: int, position: int, parentType: string, childType: string)
    requires Valid(g)
    ensures var (g', p) := CreateChildSpec(g, volId, childId, position, parentType, childType);
            && Valid(g') && Grows(g, g')
            && p < |g'.nodes| && Matches(g'.nodes[p], parentType, volId)
            && Linked(g', p, childType, childId)
            && (GetNodeFromDb(GetOrCreate(g, volId, parentType).0, childId, childType).None? ==>
                  g'.nodes[|g'.nodes| - 1] == GNode({childType}, map[VolIdKey := IntProp(childId), PositionKey := IntProp(position)]))
  {
    var (g1, p) := GetOrCreate(g, volId, parentType);
    AttachChildEdges(g1, p, childId, childType, ChildProps(childId, position));
    AttachChildLinks(g1, p, childId, childType, ChildProps(childId, position));
    var g' := AttachChild(g1, p, childId, childType, ChildProps(childId, position));
    GrowsTrans(g, g1, g');
    assert g'.nodes[p] == g'.nodes[..|g1.nodes|][p];
  }

  // ---------------------------------------------------------------------
  // Idempotence

  /** At most one node has this label and id. */
  predicate AtMostOne(g: Graph, labelName: string, id: int)
  {
    |Find(g.nodes, labelName, id)| <= 1
  }

  /** A fresh node of get-or-create matches exactly its own label and id. */
  lemma FreshMatches(labelName: string, props: map<string, Prop>, id: int, l: string, x: int)
    requires CarriesId(props, id)
    ensures Matches(FreshNode(labelName, props), l, x) <==> l == labelName && x == id
  {
  }

  /** Get-or-create adds a position to Find only for its own label and id, and only when the lookup failed. */
  lemma GetOrCreateFind(g: Graph, id: int, labelName: string, l: string, x: int)
    ensures Find(GetOrCreate(g, id, labelName).0.nodes, l, x)
         == Find(g.nodes, l, x) + (if GetNodeFromDb(g, id, labelName).None? && l == labelName && x == id then [|g.nodes|] else [])
  {
    if GetNodeFromDb(g, id, labelName).None? {
      FindAppend(g.nodes, FreshNode(labelName, VolProps(id)), l, x);
      FreshMatches(labelName, VolProps(id), id, l, x);
    }
  }

  /** The same for one child of create. */
  lemma AttachChildFind(g: Graph, parent: nat, id: int, labelName: string, props: map<string, Prop>, l: string, x: int)
    requires CarriesId(props, id)
    ensures Find(AttachChild(g, parent, id, labelName, props).nodes, l, x)
         == Find(g.nodes, l, x) + (if GetNodeFromDb(g, id, labelName).None? && l == labelName && x == id then [|g.nodes|] else [])
  {
    if GetNodeFromDb(g, id, labelName).None? {
      FindAppend(g.nodes, FreshNode(labelName, props), l, x);
      FreshMatches(labelName, props, id, l, x);
    }
  }

  /** Attaching a child never disturbs a lookup that succeeds. */
  lemma AttachChildKeepsFound(g: Graph, parent: nat, id: int, labelName: string, props: map<string, Prop>, l: string, x: int)
    requires CarriesId(props, id) && GetNodeFromDb(g, x, l).Some?
    ensures GetNodeFromDb(AttachChild(g, parent, id, labelName, props), x, l) == GetNodeFromDb(g, x, l)
  {
    AttachChildFind(g, parent, id, labelName, props, l, x);
  }

  /** Every id in ids is found, and has a CHILD edge from p. */
  predicate Settled(g: Graph, p: nat, labelName: string, ids: seq<int>)
  {
    forall id :: id in ids ==> SettledOne(g, p, labelName, id)
  }

  predicate SettledOne(g: Graph, p: nat, labelName: string, id: int)
  {
    GetNodeFromDb(g, id, labelName).Some? && EdgeCount(g.edges, Edge(p, ChildRel, GetNodeFromDb(g, id, labelName).value)) > 0
  }

  /** Edges are only appended by attaching, so no edge count goes down. */
  lemma AttachChildCountsGrow(g: Graph, parent: nat, id: int, labelName: string, props: map<string, Prop>, e: Edge)
    ensures EdgeCount(AttachChild(g, parent, id, labelName, props).edges, e) >= EdgeCount(g.edges, e)
  {
    var g' := AttachChild(g, parent, id, labelName, props);
    if g'.edges != g.edges {
      EdgeCountAppend(g.edges, g'.edges[|g'.edges| - 1], e);
      assert g'.edges == g.edges + [g'.edges[|g'.edges| - 1]];
    }
  }

  /**
   * Attaching id to p settles it, keeps every settled id settled, and keeps
   * at most one node for every id still to come.
   */
  lemma AttachChildSettles(g: Graph, p: nat, id: int, labelName: string, props: map<string, Prop>,
                           done: seq<int>, rest: seq<int>)
    requires CarriesId(props, id)
    requires Settled(g, p, labelName, done) && AtMostOne(g, labelName, id)
    requires forall r :: r in rest ==> AtMostOne(g, labelName, r)
    ensures var g' := AttachChild(g, p, id, labelName, props);
            && Settled(g', p, labelName, done + [id])
            && forall r :: r in rest ==> AtMostOne(g', labelName, r)
  {
    var g' := AttachChild(g, p, id, labelName, props);
    forall d | d in done
      ensures SettledOne(g', p, labelName, d)
    {
      assert SettledOne(g, p, labelName, d);
      AttachChildKeepsFound(g, p, id, labelName, props, labelName, d);
      AttachChildCountsGrow(g, p, id, labelName, props, Edge(p, ChildRel, GetNodeFromDb(g, d, labelName).value));
    }
    AttachChildFind(g, p, id, labelName, props, labelName, id);
    match GetNodeFromDb(g, id, labelName)
    case None =>
      var e := Edge(p, ChildRel, |g.nodes|);
      EdgeCountAppend(g.edges, e, e);
    case Some(c) =>
      AttachChildCountsGrow(g, p, id, labelName, props, Edge(p, ChildRel, c));
    forall r | r in rest
      ensures AtMostOne(g', labelName, r)
    {
      AttachChildFind(g, p, id, labelName, props, labelName, r);
    }
  }

  /** The loop of create settles all its ids, given at most one node per id to begin with. */
  lemma {:induction false} AttachAllSettles(g: Graph, p: nat, done: seq<int>, ids: seq<int>)
    requires Settled(g, p, PhysvolLabel, done)
    requires forall r :: r in ids ==> AtMostOne(g, PhysvolLabel, r)
    ensures Settled(AttachAll(g, p, ids), p, PhysvolLabel, done + ids)
    decreases |ids|
  {
    if ids == [] {
      assert done + ids == done;
    } else {
      var g1 := AttachChild(g, p, ids[0], PhysvolLabel, VolProps(ids[0]));
      var rest, done' := ids[1..], done + [ids[0]];
      assert done' + rest == done + ids;
      assert forall r :: r in rest ==> r in ids;
      AttachChildSettles(g, p, ids[0], PhysvolLabel, VolProps(ids[0]), done, rest);
      AttachAllSettles(g1, p, done', rest);
    }
  }

  /** The loop of create never disturbs a lookup that succeeds. */
  lemma {:induction false} AttachAllKeepsFound(g: Graph, p: nat, ids: seq<int>, x: int)
    requires GetNodeFromDb(g, x, PhysvolLabel).Some?
    ensures GetNodeFromDb(AttachAll(g, p, ids), x, PhysvolLabel) == GetNodeFromDb(g, x, PhysvolLabel)
    decreases |ids|
  {
    if ids != [] {
      AttachChildKeepsFound(g, p, ids[0], PhysvolLabel, VolProps(ids[0]), PhysvolLabel, x);
      AttachAllKeepsFound(AttachChild(g, p, ids[0], PhysvolLabel, VolProps(ids[0])), p, ids[1..], x);
    }
  }

  /** Over settled ids, the loop of create changes nothing. */
  lemma {:induction false} AttachAllSettledNoOp(g: Graph, p: nat, ids: seq<int>)
    requires Settled(g, p, PhysvolLabel, ids)
    ensures AttachAll(g, p, ids) == g
    decreases |ids|
  {
    if ids != [] {
      assert ids[0] in ids;
      assert forall r :: r in ids[1..] ==> r in ids;
      AttachAllSettledNoOp(g, p, ids[1..]);
    }
  }

  /**
   * Get-or-create leaves the id found (at the node it returns), and at most
   * one node for every id that had at most one.
   */
  lemma GetOrCreateSettles(g: Graph, id: int, labelName: string, ids: seq<int>)
    requires AtMostOne(g, labelName, id)
    requires forall r :: r in ids ==> AtMostOne(g, labelName, r)
    ensures var (g1, p) := GetOrCreate(g, id, labelName);
            && GetNodeFromDb(g1, id, labelName) == Some(p)
            && forall r :: r in ids ==> AtMostOne(g1, labelName, r)
  {
    GetOrCreateFind(g, id, labelName, labelName, id);
    forall r | r in ids
      ensures AtMostOne(GetOrCreate(g, id, labelName).0, labelName, r)
    {
      GetOrCreateFind(g, id, labelName, labelName, r);
    }
  }

  /**
   * create is idempotent: when the store holds at most one physvol node
   * per id involved, running create a second time with the same arguments
   * returns the same parent and leaves the store as the first run left it.
   */
  lemma CreateIdempotent(g: Graph, volId: int, childIds: seq<int>)
    requires AtMostOne(g, PhysvolLabel, volId)
    requires forall id :: id in childIds ==> AtMostOne(g, PhysvolLabel, id)
    ensures var (g', p) := CreateSpec(g, volId, childIds);
            CreateSpec(g', volId, childIds) == (g', p)
  {
    var (g1, p) := GetOrCreate(g, volId, PhysvolLabel);
    GetOrCreateSettles(g, volId, PhysvolLabel, childIds);
    AttachAllSettles(g1, p, [], childIds);
    assert [] + childIds == childIds;
    var g' := AttachAll(g1, p, childIds);
    AttachAllKeepsFound(g1, p, childIds, volId);
    AttachAllSettledNoOp(g', p, childIds);
  }

  /**
   * createChild is idempotent in the same way, when at most one node has
   * the parent's type and id and at most one the child's.
   */
  lemma CreateChildIdempotent(g: Graph, volId: int, childId: int, position: int, parentType: string, childType: string)
    requires AtMostOne(g, parentType, volId) && AtMostOne(g, childType, childId)
    ensures var (g', p) := CreateChildSpec(g, volId, childId, position, parentType, childType);
            CreateChildSpec(g', volId, childId, position, parentType, childType) == (g', p)
  {
    var (g1, p) := GetOrCreate(g, volId, parentType);
    GetOrCreateFind(g, volId, parentType, parentType, volId);
    assert GetNodeFromDb(g1, volId, parentType) == Some(p);
    GetOrCreateFind(g, volId, parentType, childType, childId);
    assert AtMostOne(g1, childType, childId);
    var props := ChildProps(childId, position);
    var g' := AttachChild(g1, p, childId, childType, props);
    AttachChildKeepsFound(g1, p, childId, childType, props, parentType, volId);
    assert GetOrCreate(g', volId, parentType) == (g', p);
    AttachChildSettles(g1, p, childId, childType, props, [], []);
    assert childId in [] + [childId];
    SettledAttachNoOp(g', p, childId, childType, props);
  }

  /** Attaching a settled id changes nothing. */
  lemma SettledAttachNoOp(g: Graph, p: nat, id: int, labelName: string, props: map<string, Prop>)
    requires Settled(g, p, labelName, [id])
    ensures AttachChild(g, p, id, labelName, props) == g
  {
    assert id in [id];
  }

  // ---------------------------------------------------------------------
  // addRel

  /**
   * addRel aborts unless both endpoints are found. Otherwise only the
   * count of the relationship e between them changes: with unique set it
   * becomes 1 if it was 0 and stays otherwise; with unique unset it stays 0
   * if it was 0 and goes up by one otherwise. The store stays valid.
   */
  lemma AddRelCounts(g: Graph, parentId: int, parentType: string, childId: int, childType: string,
                     relString: string, unique: bool)
    ensures var r := AddRelSpec(g, parentId, parentType, childId, childType, relString, unique);
            && (r.Some? <==> GetNodeFromDb(g, parentId, parentType).Some? && GetNodeFromDb(g, childId, childType).Some?)
            && (r.Some? ==>
                  var e := Edge(GetNodeFromDb(g, parentId, parentType).value, relString, GetNodeFromDb(g, childId, childType).value);
                  var n := EdgeCount(g.edges, e);
                  && r.value.nodes == g.nodes
                  && EdgeCount(r.value.edges, e) == (if unique then (if n == 0 then 1 else n) else (if n == 0 then 0 else n + 1))
                  && (forall f :: f != e ==> EdgeCount(r.value.edges, f) == EdgeCount(g.edges, f))
                  && (Valid(g) ==> Valid(r.value)))
  {
    var r := AddRelSpec(g, parentId, parentType, childId, childType, relString, unique);
    if r.Some? {
      var e := Edge(GetNodeFromDb(g, parentId, parentType).value, relString, GetNodeFromDb(g, childId, childType).value);
      EdgeCountAppend(g.edges, e, e);
      forall f | f != e
        ensures EdgeCount(r.value.edges, f) == EdgeCount(g.edges, f)
      {
        EdgeCountAppend(g.edges, e, f);
      }
    }
  }

  // ---------------------------------------------------------------------
  // addPropertiesToNode

  /**
   * Properties that leave volId alone change no lookup: every label and id
   * finds the same nodes afterwards. (A map that does set volId moves the
   * node to another id, as update_properties would.)
   */
  lemma AddPropertiesKeepsLookups(g: Graph, volId: int, volType: string, props: map<string, Prop>, l: string, x: int)
    requires VolIdKey !in props
    ensures var r := AddPropertiesSpec(g, volId, volType, props);
            r.Some? ==> Find(r.value.nodes, l, x) == Find(g.nodes, l, x)
  {
    var r := AddPropertiesSpec(g, volId, volType, props);
    if r.Some? {
      var i := GetNodeFromDb(g, volId, volType).value;
      var n := GNode(g.nodes[i].labels, g.nodes[i].props + props);
      assert r.value.nodes == g.nodes[i := n];
      FindUpdate(g.nodes, i, n, l, x);
    }
  }
}
