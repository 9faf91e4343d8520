/**
 * get_all_nodes and generate_document: the depth-first walk over the
 * volume tree that emits one document per physical volume.
 *
 * The walk is specified by the pure functions WalkNode/WalkChildren over a
 * WalkState (the shared `tags` dictionary and the `docs_to_store` buffer);
 * the Walker class performs it in place, and its GetAllNodes method is
 * proved to leave exactly the state the specification computes.
 */
module GeoWalk {
  import opened Options
  import opened Transforms
  import opened TagDicts
  import opened GeoModel

  /** A document to index. */
  datatype Document = Document(
    depth: int,
    tags: seq<string>,
    transform: seq<real>,
    shape: string,
    dimensions: string,
    material: string,
    name: string,
    index: string,
    docType: string)

  /** The document generate_document builds for an expanded physical volume. */
  function MakeDocument(view: PhysVolView, depth: int, tags: TagDict, transform: Affine): Document
  {
    var lv := view.logvol.expanded;
    Document(depth, Values(tags), Flatten(transform), lv.shape.shapeType, lv.shape.parameters,
             lv.material.name, lv.name, "atlas_geo", "vol")
  }

  /** The state the walk threads through: the tags dictionary and the document buffer. */
  datatype WalkState = WalkState(tags: TagDict, docs: seq<Document>)

  /**
   * The (parent id, parent table) a node's children are fetched with: table 1
   * for the node at depth 0, otherwise the node's logvol attribute, which
   * only physical volumes have.
   */
  function ParentKey(node: Item, depth: int): Result<(int, int)>
  {
    if depth == 0 then Ok((node.id, RootParentTable))
    else if HasLogvol(node) then Ok((node.id, node.logvol))
    else Fail(NoLogvolAttribute(node.id))
  }

  /** get_all_nodes(node, tags, t, depth, maxDepth), on the state it starts from. */
  function WalkNode(db: Db, node: Item, t: Affine, depth: int, maxDepth: int, st: WalkState): Result<WalkState>
    requires WellTyped(db)
    decreases maxDepth - depth, 2, 0
  {
    match ParentKey(node, depth)
    case Fail(f) => Fail(f)
    case Ok(key) => WalkChildren(db, ChildrenOf(db.childPositions, key.0, key.1), t, depth, maxDepth, st)
  }

  /** The loop of get_all_nodes over the children cs still to visit, t being the folded transform so far. */
  function WalkChildren(db: Db, cs: seq<Child>, t: Affine, depth: int, maxDepth: int, st: WalkState): Result<WalkState>
    requires WellTyped(db)
    decreases maxDepth - depth, 1, |cs|
  {
    if cs == [] then Ok(st)
    else
      match ChildStep(db, cs[0], t, depth, maxDepth, st)
      case Fail(f) => Fail(f)
      case Ok(next) => WalkChildren(db, cs[1..], next.0, depth, maxDepth, next.1)
  }

  /**
   * One pass of the loop body: a name tag sets the tag of this depth, a
   * transform of either kind is folded in, a physical volume of either kind
   * is expanded into a document and then walked (below the depth limit)
   * after which the tag one level down is dropped; any other child is
   * skipped. Yields the folded transform and the state after the child.
   */
  function ChildStep(db: Db, c: Child, t: Affine, depth: int, maxDepth: int, st: WalkState): Result<(Affine, WalkState)>
    requires WellTyped(db)
    decreases maxDepth - depth, 0, 0
  {
    match GetTypeAndItem(db, c.childTable, c.childId)
    case Fail(f) => Fail(f)
    case Ok(item) =>
      if item.NameTag? then
        Ok((t, st.(tags := SetTag(st.tags, depth, item.name))))
      else if item.AlignableTransform? || item.Transform? then
        Ok((Fold(t, item.t), st))
      else if item.PhysVol? || item.FullPhysVol? then
        match GetPhysVolItem(db, item)
        case Fail(f) => Fail(f)
        case Ok(view) =>
          var emitted := st.(docs := st.docs + [MakeDocument(view.value, depth, st.tags, t)]);
          var sub := if depth < maxDepth then WalkNode(db, item, t, depth + 1, maxDepth, emitted) else Ok(emitted);
          match sub
          case Fail(f) => Fail(f)
          case Ok(after) => Ok((t, after.(tags := DelTag(after.tags, depth + 1))))
      else
        Ok((t, st))
  }

  /** The walk's mutable state: the tags dictionary passed down the recursion and the document buffer. */
  class Walker {
    const db: Db
    var tags: TagDict
    var docs: seq<Document>

    function State(): WalkState
      reads this
    {
      WalkState(tags, docs)
    }

    /** A walk as the program starts it: empty tags, empty buffer. */
    constructor (db: Db)
      ensures this.db == db && State() == WalkState([], [])
    {
      this.db := db;
      tags := [];
      docs := [];
    }

    /**
     * generate_document: appends one document and changes nothing else. Its
     * tags are the dictionary's values in insertion order, its transform the
     * 12 numbers of the folded transform, its shape, dimensions, material and
     * name those of the expanded logical volume.
     */
    method GenerateDocument(view: PhysVolView, depth: int, transform: Transf)
      modifies this
      ensures tags == old(tags)
      ensures |docs| == |old(docs)| + 1 && docs[..|old(docs)|] == old(docs)
      ensures var d := docs[|old(docs)|];
              && d.depth == depth
              && d.tags == Values(tags)
              && |d.transform| == 12 && Unflatten(d.transform) == transform.Value()
              && d.shape == view.logvol.expanded.shape.shapeType
              && d.dimensions == view.logvol.expanded.shape.parameters
              && d.material == view.logvol.expanded.material.name
              && d.name == view.logvol.expanded.name
              && d.index == "atlas_geo" && d.docType == "vol"
      ensures docs == old(docs) + [MakeDocument(view, depth, tags, transform.Value())]
    {
      var sit := view.logvol.expanded;
      var matrix := transform.Matrix();
      var doc := Document(depth, Values(tags), matrix, sit.shape.shapeType, sit.shape.parameters,
                          sit.material.name, sit.name, "atlas_geo", "vol");
      docs := docs + [doc];
    }

    /**
     * get_all_nodes: walks the subtree below node, emitting documents and
     * updating tags in place, and ends in exactly the state WalkNode
     * computes (or stops with the fault WalkNode reports). The caller's
     * transform is never changed: the children are folded into a copy.
     */
    method GetAllNodes(node: Item, current: Transf, depth: int, maxDepth: int) returns (status: Result<()>)
      requires WellTyped(db)
      modifies this
      ensures current.Value() == old(current.Value())
      ensures match WalkNode(db, node, old(current.Value()), depth, maxDepth, old(State()))
              case Ok(s) => status == Ok(()) && State() == s
              case Fail(f) => status == Fail(f)
      decreases maxDepth - depth, 2
    {
      var key := ParentKey(node, depth);
      if key.Fail? {
        return Fail(key.fault);
      }
      var children := GetChildrenOfThisVol(db.childPositions, key.value.0, key.value.1);
      assert WalkNode(db, node, current.Value(), depth, maxDepth, State())
          == WalkChildren(db, children, current.Value(), depth, maxDepth, State());
      if |children| == 0 {
        return Ok(());
      }
      var folded := new Transf.Copy(current);
      status := VisitChildren(children, folded, depth, maxDepth);
    }

    /**
     * The loop of get_all_nodes over its children, folding transforms into
     * the loop's own copy: ends in exactly the state WalkChildren computes.
     */
    method VisitChildren(children: seq<Child>, folded: Transf, depth: int, maxDepth: int) returns (status: Result<()>)
      requires WellTyped(db)
      modifies this, folded
      ensures match WalkChildren(db, children, old(folded.Value()), depth, maxDepth, old(State()))
              case Ok(s) => status == Ok(()) && State() == s
              case Fail(f) => status == Fail(f)
      decreases maxDepth - depth, 1
    {
      var i := 0;
      while i < |children|
        invariant 0 <= i <= |children|
        invariant WalkChildren(db, children[i..], folded.Value(), depth, maxDepth, State())
               == WalkChildren(db, children, old(folded.Value()), depth, maxDepth, old(State()))
      {
        assert children[i..][0] == children[i] && children[i..][1..] == children[i + 1..];
        status := VisitChild(children[i], folded, depth, maxDepth);
        if status.Fail? {
          return;
        }
        i := i + 1;
      }
      return Ok(());
    }

    /**
     * One pass of the loop body of get_all_nodes, for child c, folding into
     * the loop's own transform copy: ends in exactly the state ChildStep
     * computes.
     */
    method VisitChild(c: Child, folded: Transf, depth: int, maxDepth: int) returns (status: Result<()>)
      requires WellTyped(db)
      modifies this, folded
      ensures match ChildStep(db, c, old(folded.Value()), depth, maxDepth, old(State()))
              case Ok(next) => status == Ok(()) && folded.Value() == next.0 && State() == next.1
              case Fail(f) => status == Fail(f)
      decreases maxDepth - depth, 0
    {
      var found := GetTypeAndItem(db, c.childTable, c.childId);
      if found.Fail? {
        return Fail(found.fault);
      }
      var item := found.value;
      if item.NameTag? {
        tags := SetTag(tags, depth, item.name);
      } else if item.AlignableTransform? || item.Transform? {
        folded.AddTransform(item.t);
      } else if item.PhysVol? || item.FullPhysVol? {
        var expanded := GetPhysVolItem(db, item);
        if expanded.Fail? {
          return Fail(expanded.fault);
        }
        GenerateDocument(expanded.value.value, depth, folded);
        if depth < maxDepth {
          var sub := GetAllNodes(item, folded, depth + 1, maxDepth);
          if sub.Fail? {
            return sub;
          }
        }
        if Get(tags, depth + 1).Some? {
          tags := DelTag(tags, depth + 1);
        } else {
          DelTagAbsent(tags, depth + 1);
        }
      }
      return Ok(());
    }
  }
}
