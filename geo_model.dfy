/**
 * The geometry database as the walk of gm2json.py sees it: the
 * ChildrenPositions rows and the typed rows of the node tables, read-only.
 * The relational store and its ORM are replaced by an in-memory value.
 */
module GeoModel {
  import opened Options
  import opened Transforms

  // Table ids of GeoNodesTypes (the ORM classes name their tables by these numbers).
  const PhysVolsTable := 1
  const FullPhysVolsTable := 2
  const LogVolsTable := 3
  const MaterialsTable := 4
  const ShapesTable := 5
  const TransformsTable := 9
  const AlignableTransformsTable := 10
  const NameTagsTable := 11

  /** The parent-table id with which the root volume's children are fetched. */
  const RootParentTable := 1

  /** One row of a geometry table, typed by the table it belongs to. */
  datatype Item =
    | RootVolume(id: int)
    | PhysVol(id: int, logvol: int)
    | FullPhysVol(id: int, logvol: int)
    | LogVol(id: int, name: string, shape: int, material: int)
    | Material(id: int, name: string)
    | Shape(id: int, shapeType: string, parameters: string)
    | Transform(id: int, t: Affine)
    | AlignableTransform(id: int, t: Affine)
    | NameTag(id: int, name: string)
    | Other(id: int, table: int)  // SerialDenominators, Functions, SerialTransformers, ...

  /** The table a row of this kind lives in (the root volume has a table of its own, not addressed by id). */
  function TableOf(item: Item): int
  {
    match item
    case RootVolume(_) => 0
    case PhysVol(_, _) => PhysVolsTable
    case FullPhysVol(_, _) => FullPhysVolsTable
    case LogVol(_, _, _, _) => LogVolsTable
    case Material(_, _) => MaterialsTable
    case Shape(_, _, _) => ShapesTable
    case Transform(_, _) => TransformsTable
    case AlignableTransform(_, _) => AlignableTransformsTable
    case NameTag(_, _) => NameTagsTable
    case Other(_, table) => table
  }

  predicate IsKnownTable(table: int)
  {
    table == PhysVolsTable || table == FullPhysVolsTable || table == LogVolsTable ||
    table == MaterialsTable || table == ShapesTable || table == TransformsTable ||
    table == AlignableTransformsTable || table == NameTagsTable
  }

  /** A physical volume of either kind: the only rows with a logvol column. */
  predicate HasLogvol(item: Item)
  {
    item.PhysVol? || item.FullPhysVol?
  }

  /** A row of ChildrenPositions. */
  datatype ChildPos = ChildPos(id: int, parentId: int, parentTable: int, childTable: int, childId: int, position: int)

  /** A child as get_children_of_this_vol returns it: the row without its parentTable. */
  datatype Child = Child(id: int, parentId: int, childTable: int, childId: int, position: int)

  /**
   * The database: the ChildrenPositions rows in the order the query yields
   * them (no ORDER BY), and every other row keyed by (table id, item id).
   */
  datatype Db = Db(childPositions: seq<ChildPos>, items: map<(int, int), Item>)

  /**
   * Each table holds rows of its own class only, and a row is stored under
   * its own id: what the relational schema and the ORM guarantee.
   */
  predicate WellTyped(db: Db)
  {
    forall k :: k in db.items ==>
      && k.0 == TableOf(db.items[k])
      && k.1 == db.items[k].id
      && !db.items[k].RootVolume?
      && (db.items[k].Other? ==> !IsKnownTable(db.items[k].table))
  }

  /** Why a run stops: a query's .one() found no row, or a node lacks the logvol attribute. */
  datatype Fault = NoSuchRow(table: int, id: int) | NoLogvolAttribute(id: int)

  datatype Result<+T> = Ok(value: T) | Fail(fault: Fault)

  /** get_type_and_item: the row with this table id and item id; a miss stops the run. */
  function GetTypeAndItem(db: Db, tableId: int, itemId: int): (r: Result<Item>)
    requires WellTyped(db)
    ensures r.Ok? <==> (tableId, itemId) in db.items
    ensures r.Ok? ==> r.value == db.items[(tableId, itemId)]
    ensures r.Ok? ==> TableOf(r.value) == tableId && r.value.id == itemId
    ensures r.Fail? ==> r.fault == NoSuchRow(tableId, itemId)
  {
    if (tableId, itemId) in db.items then Ok(db.items[(tableId, itemId)]) else Fail(NoSuchRow(tableId, itemId))
  }

  // ---------------------------------------------------------------------
  // get_children_of_this_vol

  predicate IsChildOf(row: ChildPos, nodeId: int, nodeTable: int)
  {
    row.parentId == nodeId && row.parentTable == nodeTable
  }

  function Project(row: ChildPos): Child
  {
    Child(row.id, row.parentId, row.childTable, row.childId, row.position)
  }

  /** The rows whose parent is (nodeId, nodeTable), projected, in query order. */
  function ChildrenOf(rows: seq<ChildPos>, nodeId: int, nodeTable: int): seq<Child>
    decreases |rows|
  {
    if rows == [] then []
    else if IsChildOf(rows[0], nodeId, nodeTable) then [Project(rows[0])] + ChildrenOf(rows[1..], nodeId, nodeTable)
    else ChildrenOf(rows[1..], nodeId, nodeTable)
  }

  /** Exactly the matching rows come out: every one of them, and nothing else. */
  lemma {:induction false} ChildrenOfMembers(rows: seq<ChildPos>, nodeId: int, nodeTable: int)
    ensures forall row :: row in rows && IsChildOf(row, nodeId, nodeTable) ==> Project(row) in ChildrenOf(rows, nodeId, nodeTable)
    ensures forall c :: c in ChildrenOf(rows, nodeId, nodeTable) ==>
              exists row :: row in rows && IsChildOf(row, nodeId, nodeTable) && Project(row) == c
    decreases |rows|
  {
    if rows != [] {
      ChildrenOfMembers(rows[1..], nodeId, nodeTable);
      assert forall row :: row in rows ==> row == rows[0] || row in rows[1..];
      assert forall row :: row in rows[1..] ==> row in rows;
    }
  }

  /**
   * Filtering keeps the original order: the children of a concatenation are
   * the children of the first part followed by those of the second.
   */
  lemma {:induction false} ChildrenOfAppend(a: seq<ChildPos>, b: seq<ChildPos>, nodeId: int, nodeTable: int)
    ensures ChildrenOf(a + b, nodeId, nodeTable) == ChildrenOf(a, nodeId, nodeTable) + ChildrenOf(b, nodeId, nodeTable)
    decreases |a|
  {
    if a == [] {
      assert a + b == b;
    } else {
      assert (a + b)[1..] == a[1..] + b;
      ChildrenOfAppend(a[1..], b, nodeId, nodeTable);
    }
  }

  /** get_children_of_this_vol: the loop that keeps the rows of this parent, in query order. */
  method GetChildrenOfThisVol(rows: seq<ChildPos>, nodeId: int, nodeTable: int) returns (res: seq<Child>)
    ensures res == ChildrenOf(rows, nodeId, nodeTable)
  {
    res := [];
    var i := 0;
    while i < |rows|
      invariant 0 <= i <= |rows|
      invariant res == ChildrenOf(rows[..i], nodeId, nodeTable)
    {
      var child := rows[i];
      ChildrenOfAppend(rows[..i], [child], nodeId, nodeTable);
      assert ChildrenOf([child], nodeId, nodeTable) == if IsChildOf(child, nodeId, nodeTable) then [Project(child)] else [];
      assert rows[..i + 1] == rows[..i] + [child];
      if child.parentTable == nodeTable && child.parentId == nodeId {
        res := res + [Project(child)];
      }
      i := i + 1;
    }
    assert rows[..i] == rows;
  }

  // ---------------------------------------------------------------------
  // get_logvol_item and get_physvol_item

  /** A shape row without its id. */
  datatype ShapeView = ShapeView(shapeType: string, parameters: string)

  /** A material row without its id. */
  datatype MaterialView = MaterialView(name: string)

  /** A logical-volume row with its shape and material references replaced by the rows they name. */
  datatype LogVolView = LogVolView(id: int, name: string, shape: ShapeView, material: MaterialView)

  /** The {'object': ..., 'type': ...} entry that replaces a physical volume's logvol reference. */
  datatype LogVolEntry = LogVolEntry(expanded: LogVolView, nodeType: string)

  /** A physical-volume row with its logvol reference replaced by the expanded logical volume. */
  datatype PhysVolView = PhysVolView(id: int, logvol: LogVolEntry)

  /**
   * get_logvol_item: nothing for a row without a shape column; otherwise the
   * row with material and shape (looked up in that order) expanded and their
   * ids dropped. A missing material or shape row stops the run.
   */
  function GetLogVolItem(db: Db, item: Item): (r: Result<Option<LogVolView>>)
    requires WellTyped(db)
    ensures r == Ok(None) <==> !item.LogVol?
    ensures item.LogVol? ==> (r.Ok? <==> (MaterialsTable, item.material) in db.items && (ShapesTable, item.shape) in db.items)
    ensures r.Fail? ==>
              && item.LogVol?
              && if (MaterialsTable, item.material) !in db.items then r.fault == NoSuchRow(MaterialsTable, item.material)
                 else r.fault == NoSuchRow(ShapesTable, item.shape)
    ensures r.Ok? && r.value.Some? ==>
              && r.value.value.id == item.id
              && r.value.value.name == item.name
              && db.items[(ShapesTable, item.shape)] == Shape(item.shape, r.value.value.shape.shapeType, r.value.value.shape.parameters)
              && db.items[(MaterialsTable, item.material)] == Material(item.material, r.value.value.material.name)
  {
    if !item.LogVol? then Ok(None)
    else if (MaterialsTable, item.material) !in db.items then Fail(NoSuchRow(MaterialsTable, item.material))
    else
      var mat := db.items[(MaterialsTable, item.material)];
      if (ShapesTable, item.shape) !in db.items then Fail(NoSuchRow(ShapesTable, item.shape))
      else
        var shape := db.items[(ShapesTable, item.shape)];
        Ok(Some(LogVolView(item.id, item.name, ShapeView(shape.shapeType, shape.parameters), MaterialView(mat.name))))
  }

  /**
   * get_physvol_item: nothing for a row without a logvol column; otherwise
   * the row with only its logvol reference replaced by the expanded logical
   * volume, tagged "GeoLogVol". A missing row on the way stops the run.
   */
  function GetPhysVolItem(db: Db, item: Item): (r: Result<Option<PhysVolView>>)
    requires WellTyped(db)
    ensures r == Ok(None) <==> !HasLogvol(item)
    ensures r.Fail? ==>
              && HasLogvol(item)
              && if (LogVolsTable, item.logvol) !in db.items then r.fault == NoSuchRow(LogVolsTable, item.logvol)
                 else GetLogVolItem(db, db.items[(LogVolsTable, item.logvol)]) == Fail(r.fault)
    ensures r.Ok? && r.value.Some? ==>
              && (LogVolsTable, item.logvol) in db.items
              && r.value.value.id == item.id
              && r.value.value.logvol.nodeType == "GeoLogVol"
              && GetLogVolItem(db, db.items[(LogVolsTable, item.logvol)]) == Ok(Some(r.value.value.logvol.expanded))
  {
    if !HasLogvol(item) then Ok(None)
    else if (LogVolsTable, item.logvol) !in db.items then Fail(NoSuchRow(LogVolsTable, item.logvol))
    else
      match GetLogVolItem(db, db.items[(LogVolsTable, item.logvol)])
      case Fail(f) => Fail(f)
      case Ok(lv) => Ok(Some(PhysVolView(item.id, LogVolEntry(lv.value, "GeoLogVol"))))
  }
}
