/**
 * What the geometry walk guarantees, proved about its specification
 * (WalkNode / WalkChildren / ChildStep), and so, through
 * Walker.GetAllNodes, about the in-place walk:
 *   - the document buffer is only appended to, and every document emitted
 *     by a call at depth d has a depth between d and the depth limit;
 *   - each physical-volume child yields exactly one document of its own
 *     (name tags, transforms and other rows yield none);
 *   - the tags dictionary behaves as a stack of levels: a subtree never
 *     leaves a tag behind, and keys stay ascending and at most the depth;
 *   - a walk stops only on a row that is really missing, and a database
 *     whose references all resolve is walked to the end.
 */
module WalkProperties {
  import opened Options
  import opened Transforms
  import opened TagDicts
  import opened GeoModel
  import opened GeoWalk

  // ---------------------------------------------------------------------
  // The document buffer

  /** after is before plus documents whose depths lie in [lo, hi]. */
  predicate Extends(before: seq<Document>, after: seq<Document>, lo: int, hi: int)
  {
    && |before| <= |after|
    && after[..|before|] == before
    && forall k :: |before| <= k < |after| ==> lo <= after[k].depth <= hi
  }

  lemma ExtendsTrans(a: seq<Document>, b: seq<Document>, c: seq<Document>, lo: int, hi: int)
    requires Extends(a, b, lo, hi) && Extends(b, c, lo, hi)
    ensures Extends(a, c, lo, hi)
  {
    assert c[..|a|] == c[..|b|][..|a|];
  }

  lemma ExtendsWiden(a: seq<Document>, b: seq<Document>, lo: int, hi: int)
    requires Extends(a, b, lo + 1, hi)
    ensures Extends(a, b, lo, hi)
  {
  }

  /**
   * get_all_nodes at depth d <= maxDepth only appends to the buffer, and
   * every document it appends has a depth in [d, maxDepth]: the walk never
   * goes deeper than the limit.
   */
  lemma {:induction false} NodeDocsWithin(db: Db, node: Item, t: Affine, depth: int, maxDepth: int, st: WalkState)
    requires WellTyped(db) && depth <= maxDepth
    ensures WalkNode(db, node, t, depth, maxDepth, st).Ok? ==>
              Extends(st.docs, WalkNode(db, node, t, depth, maxDepth, st).value.docs, depth, maxDepth)
    decreases maxDepth - depth, 2, 0
  {
    match ParentKey(node, depth)
    case Fail(_) =>
    case Ok(key) => ChildrenDocsWithin(db, ChildrenOf(db.childPositions, key.0, key.1), t, depth, maxDepth, st);
  }

  /** The loop over the children appends only, within [d, maxDepth]. */
  lemma {:induction false} ChildrenDocsWithin(db: Db, cs: seq<Child>, t: Affine, depth: int, maxDepth: int, st: WalkState)
    requires WellTyped(db) && depth <= maxDepth
    ensures WalkChildren(db, cs, t, depth, maxDepth, st).Ok? ==>
              Extends(st.docs, WalkChildren(db, cs, t, depth, maxDepth, st).value.docs, depth, maxDepth)
    decreases maxDepth - depth, 1, |cs|
  {
    if cs != [] {
      var step := ChildStep(db, cs[0], t, depth, maxDepth, st);
      StepDocsWithin(db, cs[0], t, depth, maxDepth, st);
      if step.Ok? {
        var r := WalkChildren(db, cs[1..], step.value.0, depth, maxDepth, step.value.1);
        ChildrenDocsWithin(db, cs[1..], step.value.0, depth, maxDepth, step.value.1);
        if r.Ok? {
          ExtendsTrans(st.docs, step.value.1.docs, r.value.docs, depth, maxDepth);
        }
      }
    }
  }

  /** One child appends only, within [d, maxDepth]. */
  lemma {:induction false} StepDocsWithin(db: Db, c: Child, t: Affine, depth: int, maxDepth: int, st: WalkState)
    requires WellTyped(db) && depth <= maxDepth
    ensures ChildStep(db, c, t, depth, maxDepth, st).Ok? ==>
              Extends(st.docs, ChildStep(db, c, t, depth, maxDepth, st).value.1.docs, depth, maxDepth)
    decreases maxDepth - depth, 0, 0
  {
    var found := GetTypeAndItem(db, c.childTable, c.childId);
    if found.Ok? && (found.value.PhysVol? || found.value.FullPhysVol?) {
      var item := found.value;
      var view := GetPhysVolItem(db, item);
      if view.Ok? {
        var emitted := st.(docs := st.docs + [MakeDocument(view.value.value, depth, st.tags, t)]);
        assert Extends(st.docs, emitted.docs, depth, maxDepth);
        if depth < maxDepth {
          var sub := WalkNode(db, item, t, depth + 1, maxDepth, emitted);
          NodeDocsWithin(db, item, t, depth + 1, maxDepth, emitted);
          if sub.Ok? {
            ExtendsWiden(emitted.docs, sub.value.docs, depth, maxDepth);
            ExtendsTrans(st.docs, emitted.docs, sub.value.docs, depth, maxDepth);
          }
        }
      }
    }
  }

  /** The number of children in cs whose row exists and is a physical volume of either kind. */
  function VolumeCount(db: Db, cs: seq<Child>): nat
    decreases |cs|
  {
    if cs == [] then 0
    else
      var key := (cs[0].childTable, cs[0].childId);
      (if key in db.items && HasLogvol(db.items[key]) then 1 else 0) + VolumeCount(db, cs[1..])
  }

  /**
   * One document per physical volume: the loop appends at least one document
   * for each physical-volume child, and at the depth limit (no recursion)
   * exactly one each, so that name tags, transforms and other rows add none.
   */
  lemma {:induction false} ChildrenDocCount(db: Db, cs: seq<Child>, t: Affine, depth: int, maxDepth: int, st: WalkState)
    requires WellTyped(db) && depth <= maxDepth
    ensures var r := WalkChildren(db, cs, t, depth, maxDepth, st);
            r.Ok? ==>
              && |r.value.docs| >= |st.docs| + VolumeCount(db, cs)
              && (depth == maxDepth ==> |r.value.docs| == |st.docs| + VolumeCount(db, cs))
    decreases |cs|
  {
    if cs != [] {
      var step := ChildStep(db, cs[0], t, depth, maxDepth, st);
      if step.Ok? {
        var found := GetTypeAndItem(db, cs[0].childTable, cs[0].childId);
        var item := found.value;
        if item.PhysVol? || item.FullPhysVol? {
          var view := GetPhysVolItem(db, item);
          var emitted := st.(docs := st.docs + [MakeDocument(view.value.value, depth, st.tags, t)]);
          if depth < maxDepth {
            NodeDocsWithin(db, item, t, depth + 1, maxDepth, emitted);
          }
          assert |step.value.1.docs| >= |st.docs| + 1;
          assert depth == maxDepth ==> |step.value.1.docs| == |st.docs| + 1;
        } else {
          assert step.value.1.docs == st.docs;
        }
        ChildrenDocCount(db, cs[1..], step.value.0, depth, maxDepth, step.value.1);
      }
    }
  }

  // ---------------------------------------------------------------------
  // The transform each document carries

  /** The transforms among the rows cs, in order: what the loop folds in. */
  function TransformsOf(db: Db, cs: seq<Child>): seq<Affine>
    decreases |cs|
  {
    if cs == [] then []
    else
      var key := (cs[|cs| - 1].childTable, cs[|cs| - 1].childId);
      TransformsOf(db, cs[..|cs| - 1])
        + (if key in db.items && (db.items[key].Transform? || db.items[key].AlignableTransform?) then [db.items[key].t] else [])
  }

  /** The loop of get_all_nodes after its first k children: the folded transform and the state. */
  function WalkPrefix(db: Db, cs: seq<Child>, k: nat, t: Affine, depth: int, maxDepth: int, st: WalkState): Result<(Affine, WalkState)>
    requires WellTyped(db) && k <= |cs|
    decreases k
  {
    if k == 0 then Ok((t, st))
    else
      match WalkPrefix(db, cs, k - 1, t, depth, maxDepth, st)
      case Fail(f) => Fail(f)
      case Ok(p) => ChildStep(db, cs[k - 1], p.0, depth, maxDepth, p.1)
  }

  /** The whole loop is its first k children followed by the rest. */
  lemma {:induction false} WalkPrefixThenRest(db: Db, cs: seq<Child>, k: nat, t: Affine, depth: int, maxDepth: int, st: WalkState)
    requires WellTyped(db) && k <= |cs|
    ensures WalkChildren(db, cs, t, depth, maxDepth, st)
         == match WalkPrefix(db, cs, k, t, depth, maxDepth, st)
            case Fail(f) => Fail(f)
            case Ok(p) => WalkChildren(db, cs[k..], p.0, depth, maxDepth, p.1)
    decreases k
  {
    if k > 0 {
      WalkPrefixThenRest(db, cs, k - 1, t, depth, maxDepth, st);
      assert cs[k - 1..][0] == cs[k - 1] && cs[k - 1..][1..] == cs[k..];
    }
  }

  /**
   * The transform in force when child k is visited is the starting
   * transform with every transform row among the children before it folded
   * in, in order; name tags, volumes and other rows leave it alone.
   */
  lemma {:induction false} WalkPrefixTransform(db: Db, cs: seq<Child>, k: nat, t: Affine, depth: int, maxDepth: int, st: WalkState)
    requires WellTyped(db) && k <= |cs|
    ensures WalkPrefix(db, cs, k, t, depth, maxDepth, st).Ok? ==>
              WalkPrefix(db, cs, k, t, depth, maxDepth, st).value.0 == FoldAll(t, TransformsOf(db, cs[..k]))
    decreases k
  {
    if k > 0 {
      WalkPrefixTransform(db, cs, k - 1, t, depth, maxDepth, st);
      var before := WalkPrefix(db, cs, k - 1, t, depth, maxDepth, st);
      if before.Ok? {
        var c := cs[k - 1];
        var key := (c.childTable, c.childId);
        assert cs[..k][..k - 1] == cs[..k - 1] && cs[..k][k - 1] == c;
        var rts := TransformsOf(db, cs[..k - 1]);
        if key in db.items && (db.items[key].Transform? || db.items[key].AlignableTransform?) {
          FoldAllSnoc(t, rts, db.items[key].t);
        } else {
          assert rts + [] == rts;
        }
      }
    }
  }

  /**
   * The document of a physical-volume child k: the loop appends it right
   * after the documents of the children before it, with the tags of that
   * moment and the transform folded from the transform rows before it.
   */
  lemma VolumeDocument(db: Db, cs: seq<Child>, k: nat, t: Affine, depth: int, maxDepth: int, st: WalkState)
    requires WellTyped(db) && k < |cs| && depth <= maxDepth
    requires (cs[k].childTable, cs[k].childId) in db.items && HasLogvol(db.items[(cs[k].childTable, cs[k].childId)])
    ensures var before, after := WalkPrefix(db, cs, k, t, depth, maxDepth, st), WalkPrefix(db, cs, k + 1, t, depth, maxDepth, st);
            after.Ok? ==>
              && before.Ok?
              && GetPhysVolItem(db, db.items[(cs[k].childTable, cs[k].childId)]).Ok?
              && |before.value.1.docs| < |after.value.1.docs|
              && after.value.1.docs[|before.value.1.docs|]
                 == MakeDocument(GetPhysVolItem(db, db.items[(cs[k].childTable, cs[k].childId)]).value.value,
                                 depth, before.value.1.tags, FoldAll(t, TransformsOf(db, cs[..k])))
  {
    var before := WalkPrefix(db, cs, k, t, depth, maxDepth, st);
    if before.Ok? {
      WalkPrefixTransform(db, cs, k, t, depth, maxDepth, st);
      var p := before.value;
      var item := db.items[(cs[k].childTable, cs[k].childId)];
      assert GetTypeAndItem(db, cs[k].childTable, cs[k].childId) == Ok(item);
      var view := GetPhysVolItem(db, item);
      if view.Ok? {
        var emitted := p.1.(docs := p.1.docs + [MakeDocument(view.value.value, depth, p.1.tags, p.0)]);
        if depth < maxDepth {
          NodeDocsWithin(db, item, p.0, depth + 1, maxDepth, emitted);
          var sub := WalkNode(db, item, p.0, depth + 1, maxDepth, emitted);
          if sub.Ok? {
            assert sub.value.docs[..|emitted.docs|] == emitted.docs;
            assert sub.value.docs[|p.1.docs|] == emitted.docs[|p.1.docs|];
          }
        }
      }
    }
  }

  // ---------------------------------------------------------------------
  // The tags dictionary

  /** The tags a call at depth d may start from: ascending, all keys below d. */
  predicate Levels(b: TagDict, d: int)
  {
    Ascending(b) && KeysAtMost(b, d - 1)
  }

  /** While the children at depth d are visited, tags is b, or b plus one tag for depth d itself. */
  predicate Frame(t: TagDict, b: TagDict, d: int)
  {
    t == b || (|t| == |b| + 1 && t[..|b|] == b && t[|b|].depth == d)
  }

  lemma FrameLevels(t: TagDict, b: TagDict, d: int)
    requires Levels(b, d) && Frame(t, b, d)
    ensures Levels(t, d + 1) && UniqueKeys(t) && Get(t, d + 1).None?
  {
    if t != b {
      assert forall i :: 0 <= i < |b| ==> t[i] == b[i];
    }
  }

  /**
   * A subtree leaves no tag behind: get_all_nodes at depth d, started on
   * tags keyed below d, returns them with at most one tag added, for depth d
   * (the one the caller deletes), and everything else exactly as it was.
   */
  lemma {:induction false} NodeTagsFrame(db: Db, node: Item, t: Affine, depth: int, maxDepth: int, st: WalkState)
    requires WellTyped(db) && Levels(st.tags, depth)
    ensures WalkNode(db, node, t, depth, maxDepth, st).Ok? ==>
              Frame(WalkNode(db, node, t, depth, maxDepth, st).value.tags, st.tags, depth)
    decreases maxDepth - depth, 2, 0
  {
    match ParentKey(node, depth)
    case Fail(_) =>
    case Ok(key) => ChildrenTagsFrame(db, ChildrenOf(db.childPositions, key.0, key.1), t, depth, maxDepth, st, st.tags);
  }

  /** The loop keeps tags within the frame of its level. */
  lemma {:induction false} ChildrenTagsFrame(db: Db, cs: seq<Child>, t: Affine, depth: int, maxDepth: int, st: WalkState, b: TagDict)
    requires WellTyped(db) && Levels(b, depth) && Frame(st.tags, b, depth)
    ensures WalkChildren(db, cs, t, depth, maxDepth, st).Ok? ==>
              Frame(WalkChildren(db, cs, t, depth, maxDepth, st).value.tags, b, depth)
    decreases maxDepth - depth, 1, |cs|
  {
    if cs != [] {
      var step := ChildStep(db, cs[0], t, depth, maxDepth, st);
      StepTagsFrame(db, cs[0], t, depth, maxDepth, st, b);
      if step.Ok? {
        ChildrenTagsFrame(db, cs[1..], step.value.0, depth, maxDepth, step.value.1, b);
      }
    }
  }

  /**
   * One child keeps the frame; a physical-volume child returns the tags
   * exactly as it found them (the recursion's tag is deleted afterwards).
   */
  lemma {:induction false} StepTagsFrame(db: Db, c: Child, t: Affine, depth: int, maxDepth: int, st: WalkState, b: TagDict)
    requires WellTyped(db) && Levels(b, depth) && Frame(st.tags, b, depth)
    ensures var r := ChildStep(db, c, t, depth, maxDepth, st);
            && (r.Ok? ==> Frame(r.value.1.tags, b, depth))
            && (r.Ok? && HasLogvol(db.items[(c.childTable, c.childId)]) ==> r.value.1.tags == st.tags)
    decreases maxDepth - depth, 0, 1
  {
    FrameLevels(st.tags, b, depth);
    var found := GetTypeAndItem(db, c.childTable, c.childId);
    if found.Ok? {
      var item := found.value;
      if item.NameTag? {
        SetTagFrame(st.tags, b, depth, item.name);
      } else if item.PhysVol? || item.FullPhysVol? {
        VolumeTagsFrame(db, item, t, depth, maxDepth, st, b);
      }
    }
  }

  /** The physical-volume branch of StepTagsFrame: the volume's subtree gives the tags back unchanged. */
  lemma {:induction false} VolumeTagsFrame(db: Db, item: Item, t: Affine, depth: int, maxDepth: int, st: WalkState, b: TagDict)
    requires WellTyped(db) && Levels(b, depth) && Frame(st.tags, b, depth) && HasLogvol(item)
    ensures var view := GetPhysVolItem(db, item);
            view.Ok? ==>
              var emitted := st.(docs := st.docs + [MakeDocument(view.value.value, depth, st.tags, t)]);
              var sub := if depth < maxDepth then WalkNode(db, item, t, depth + 1, maxDepth, emitted) else Ok(emitted);
              sub.Ok? ==> DelTag(sub.value.tags, depth + 1) == st.tags
    decreases maxDepth - depth, 0, 0
  {
    FrameLevels(st.tags, b, depth);
    var view := GetPhysVolItem(db, item);
    if view.Ok? {
      var emitted := st.(docs := st.docs + [MakeDocument(view.value.value, depth, st.tags, t)]);
      var sub := if depth < maxDepth then WalkNode(db, item, t, depth + 1, maxDepth, emitted) else Ok(emitted);
      if sub.Ok? {
        if depth < maxDepth {
          NodeTagsFrame(db, item, t, depth + 1, maxDepth, emitted);
        }
        DelTagClosesFrame(sub.value.tags, st.tags, depth + 1);
      }
    }
  }

  /** Setting the tag of depth d keeps the frame of level d. */
  lemma SetTagFrame(t: TagDict, b: TagDict, d: int, v: string)
    requires Levels(b, d) && Frame(t, b, d)
    ensures Frame(SetTag(t, d, v), b, d)
  {
    assert Get(b, d).None?;
    if t == b {
      SetTagLaws(b, d, v);
    } else {
      assert t == b + [t[|b|]];
      SetTagAfter(b, t[|b|], d, v);
    }
  }

  /** Deleting key d from a frame of level d gives back its base. */
  lemma DelTagClosesFrame(t: TagDict, b: TagDict, d: int)
    requires Levels(b, d) && Frame(t, b, d)
    ensures DelTag(t, d) == b
  {
    assert Get(b, d).None?;
    if t == b {
      DelTagAbsent(b, d);
    } else {
      assert t == b + [t[|b|]];
      AscendingHasUniqueKeys(b);
      assert UniqueKeys(t);
      DelTagAfter(b, t[|b|]);
    }
  }

  /**
   * The tag discipline seen from the caller: after a physical-volume child
   * at depth d, the level d + 1 has no tag, and the tags are the ones the
   * child started with.
   */
  lemma TagsRestoredAfterVolume(db: Db, c: Child, t: Affine, depth: int, maxDepth: int, st: WalkState)
    requires WellTyped(db) && Levels(st.tags, depth + 1)
    requires (c.childTable, c.childId) in db.items && HasLogvol(db.items[(c.childTable, c.childId)])
    ensures var r := ChildStep(db, c, t, depth, maxDepth, st);
            r.Ok? ==> r.value.1.tags == st.tags && Get(r.value.1.tags, depth + 1).None?
  {
    var b := if st.tags != [] && st.tags[|st.tags| - 1].depth == depth then st.tags[..|st.tags| - 1] else st.tags;
    assert Levels(b, depth) && Frame(st.tags, b, depth);
    StepTagsFrame(db, c, t, depth, maxDepth, st, b);
  }

  // ---------------------------------------------------------------------
  // Stopping

  /** A fault that names a row the database really lacks. */
  predicate MissingRow(db: Db, f: Fault)
  {
    f.NoSuchRow? && (f.table, f.id) !in db.items
  }

  /**
   * The walk stops only for a reason: a row it looked up is missing, or the
   * starting node at a non-zero depth has no logvol attribute.
   */
  lemma {:induction false} NodeFaults(db: Db, node: Item, t: Affine, depth: int, maxDepth: int, st: WalkState)
    requires WellTyped(db)
    ensures var r := WalkNode(db, node, t, depth, maxDepth, st);
            r.Fail? ==> MissingRow(db, r.fault) || (r.fault == NoLogvolAttribute(node.id) && depth != 0 && !HasLogvol(node))
    decreases maxDepth - depth, 2, 0
  {
    match ParentKey(node, depth)
    case Fail(_) =>
    case Ok(key) => ChildrenFaults(db, ChildrenOf(db.childPositions, key.0, key.1), t, depth, maxDepth, st);
  }

  lemma {:induction false} ChildrenFaults(db: Db, cs: seq<Child>, t: Affine, depth: int, maxDepth: int, st: WalkState)
    requires WellTyped(db)
    ensures var r := WalkChildren(db, cs, t, depth, maxDepth, st);
            r.Fail? ==> MissingRow(db, r.fault)
    decreases maxDepth - depth, 1, |cs|
  {
    if cs != [] {
      var step := ChildStep(db, cs[0], t, depth, maxDepth, st);
      StepFaults(db, cs[0], t, depth, maxDepth, st);
      if step.Ok? {
        ChildrenFaults(db, cs[1..], step.value.0, depth, maxDepth, step.value.1);
      }
    }
  }

  lemma {:induction false} StepFaults(db: Db, c: Child, t: Affine, depth: int, maxDepth: int, st: WalkState)
    requires WellTyped(db)
    ensures var r := ChildStep(db, c, t, depth, maxDepth, st);
            r.Fail? ==> MissingRow(db, r.fault)
    decreases maxDepth - depth, 0, 0
  {
    var found := GetTypeAndItem(db, c.childTable, c.childId);
    if found.Ok? && (found.value.PhysVol? || found.value.FullPhysVol?) {
      var item := found.value;
      var view := GetPhysVolItem(db, item);
      if view.Ok? && depth < maxDepth {
        var emitted := st.(docs := st.docs + [MakeDocument(view.value.value, depth, st.tags, t)]);
        NodeFaults(db, item, t, depth + 1, maxDepth, emitted);
      }
    }
  }

  /**
   * Referential integrity: every child reference, every logvol reference
   * and every material and shape reference names a row that exists.
   */
  predicate Intact(db: Db)
  {
    && (forall row :: row in db.childPositions ==> (row.childTable, row.childId) in db.items)
    && (forall k :: k in db.items && HasLogvol(db.items[k]) ==> (LogVolsTable, db.items[k].logvol) in db.items)
    && (forall k :: k in db.items && db.items[k].LogVol? ==>
          (MaterialsTable, db.items[k].material) in db.items && (ShapesTable, db.items[k].shape) in db.items)
  }

  /** On an intact database the walk from the root (or from any physical volume) never stops. */
  lemma {:induction false} NodeSucceeds(db: Db, node: Item, t: Affine, depth: int, maxDepth: int, st: WalkState)
    requires WellTyped(db) && Intact(db) && (depth == 0 || HasLogvol(node))
    ensures WalkNode(db, node, t, depth, maxDepth, st).Ok?
    decreases maxDepth - depth, 2, 0
  {
    var key := ParentKey(node, depth).value;
    var cs := ChildrenOf(db.childPositions, key.0, key.1);
    ChildrenOfMembers(db.childPositions, key.0, key.1);
    ChildrenSucceed(db, cs, t, depth, maxDepth, st);
  }

  lemma {:induction false} ChildrenSucceed(db: Db, cs: seq<Child>, t: Affine, depth: int, maxDepth: int, st: WalkState)
    requires WellTyped(db) && Intact(db)
    requires forall c :: c in cs ==> (c.childTable, c.childId) in db.items
    ensures WalkChildren(db, cs, t, depth, maxDepth, st).Ok?
    decreases maxDepth - depth, 1, |cs|
  {
    if cs != [] {
      var step := ChildStep(db, cs[0], t, depth, maxDepth, st);
      StepSucceeds(db, cs[0], t, depth, maxDepth, st);
      ChildrenSucceed(db, cs[1..], step.value.0, depth, maxDepth, step.value.1);
    }
  }

  lemma {:induction false} StepSucceeds(db: Db, c: Child, t: Affine, depth: int, maxDepth: int, st: WalkState)
    requires WellTyped(db) && Intact(db) && (c.childTable, c.childId) in db.items
    ensures ChildStep(db, c, t, depth, maxDepth, st).Ok?
    decreases maxDepth - depth, 0, 0
  {
    var item := db.items[(c.childTable, c.childId)];
    assert GetTypeAndItem(db, c.childTable, c.childId) == Ok(item);
    if item.PhysVol? || item.FullPhysVol? {
      PhysVolExpands(db, (c.childTable, c.childId));
      var view := GetPhysVolItem(db, item);
      if depth < maxDepth {
        var emitted := st.(docs := st.docs + [MakeDocument(view.value.value, depth, st.tags, t)]);
        NodeSucceeds(db, item, t, depth + 1, maxDepth, emitted);
      }
    }
  }

  /** On an intact database every physical volume row expands. */
  lemma PhysVolExpands(db: Db, k: (int, int))
    requires WellTyped(db) && Intact(db) && k in db.items && HasLogvol(db.items[k])
    ensures GetPhysVolItem(db, db.items[k]).Ok? && GetPhysVolItem(db, db.items[k]).value.Some?
  {
    var lv := db.items[(LogVolsTable, db.items[k].logvol)];
    assert GetLogVolItem(db, lv).Ok?;
  }
}
