# ATLAS GeoModel flattening walk and graph loader, in Dafny

This project models two small sequential programs that export the ATLAS
detector geometry (GeoModel) from its relational database.

**gm2json.py** walks the volume tree depth-first from the root volume, down
to a depth limit. Three kinds of child row matter:

- a name-tag child sets the tag of the current depth in a shared `tags`
  dictionary;
- a transform child (plain or alignable) is folded into the level's own copy
  of the transform accumulator (`Transf`);
- a physical volume (plain or full) is expanded (logical volume, shape,
  material) into one flat document, appended to a buffer, and then walked
  itself, after which the tag of the level below is dropped.

**atlas2neo4j_v2.py** loads volumes into a graph store with get-or-create
operations on nodes keyed by label and `volId`, and on typed edges
(`CHILD` and others).

The modules are:

- `Options`: the `Option` type.
- `Transforms`:
  - the affine transform as a value (`Affine`: a 3x3 rotation and a translation);
  - `Fold`, the effect of `add_transform`;
  - the twelve-value layout of `matrix()`;
  - matrix algebra;
  - the `Transf` class, with twelve `real` fields updated in place.
- `GeoModel`:
  - the database as a read-only value: the ChildrenPositions rows, in the
    order the query returns them, and a map from (table id, item id) to a
    typed row;
  - the lookup, the child filter and its loop, and the physvol/logvol
    expansion.
  - A lookup that finds no row yields `Fail(NoSuchRow(table, id))` instead
    of ending the process.
- `TagDicts`: the `tags` dictionary as an insertion-ordered association list,
  because a Python dict keeps insertion order and `tags.values()` follows it.
- `GeoWalk`:
  - the walk specified by pure functions (`WalkNode`, `WalkChildren`, `ChildStep`);
  - the `Walker` class, which holds `tags` and the document buffer. Its
    methods `GetAllNodes` and `GenerateDocument` do the walk in place and are
    proved to end in the state the functions compute.
- `WalkProperties`: what the walk guarantees (buffer, documents, tags,
  transforms, stopping).
- `GraphStore`:
  - the graph store as a class over a node sequence and an edge sequence;
  - `find` (`Find`) and `match` counted (`EdgeCount`).
- `GraphLoader`:
  - the `Node` classmethods as pure specifications on the store's contents;
  - methods on the store object proved to leave exactly those contents.
  - An abort (`sys.exit`) is `None` in a specification and `ok == false` in
    a method, with the store unchanged.
- `GraphProperties`: what the loader guarantees (links, edge counts,
  idempotence, `addRel`'s `unique` flag).

Notes on what the code does:

- Children are taken in the order the query returns them. No ordering by
  `position` is assumed, because the query has no ORDER BY
  (gm2json.py:304).
- Below the root, children are selected by comparing `parentTable` with the
  node's `logvol` value (gm2json.py:355). This is modelled as written.
- The document's tags are the dictionary's values in insertion order
  (gm2json.py:503), not sorted by depth. `WalkProperties.NodeTagsFrame`
  proves the keys stay ascending, so the two orders agree.
- When more than one node matches, `getNodeFromDB` returns nothing rather
  than the first match (atlas2neo4j_v2.py:174-175).
- `get_physvol_item` on a row without a `logvol` column returns None
  (gm2json.py:429-432). It does not abort.
- Re-adding a node or edge is a no-op only while each id has at most one
  matching node. `GraphProperties.CreateIdempotent` states this condition.

## Model

| member | source | states |
|---|---|---|
| Transforms.Transf.constructor | gm2json.py:189-204 | a new accumulator holds the identity rotation and a zero translation |
| Transforms.Transf.Copy | gm2json.py:363 | the copy is a new object holding the same twelve values as its source |
| Transforms.Transf.AddTransform | gm2json.py:205-230 | the new value is `Fold(old value, rt)`, and only this object's fields change |
| Transforms.FoldIsLeftMultiplication | gm2json.py:206-230 | the folded rotation is rt's rotation times the old one (left multiplication); the translation is the old one plus rt's, not rotated |
| Transforms.Transf.Matrix | gm2json.py:232-234 | exactly twelve values, xx..zz then dx, dy, dz, which read back as the accumulator's transform |
| Transforms.Flatten | gm2json.py:234 | the document transform always has twelve entries |
| Transforms.FlattenRoundTrip | gm2json.py:232-234 | the twelve-value layout loses nothing, in both directions |
| Transforms.MatMulAssoc | gm2json.py:206-216 | the matrix product the folding builds is associative |
| Transforms.MatMulIdentity | gm2json.py:189-200 | the starting rotation is a two-sided unit of the product |
| Transforms.FoldAllSnoc | gm2json.py:382-384 | folding one more sibling transform is one more `Fold` on the result |
| Transforms.FoldAllIsProduct | gm2json.py:365-384 | folding sibling transforms in order gives the product of their rotations, latest on the left, times the start, and the start's translation plus the sum of theirs |
| Transforms.FoldAllFromIdentity | gm2json.py:590 | from a fresh `Transf()`, the folded rotation is exactly the ordered product and the translation exactly the sum |
| GeoModel.GetTypeAndItem | gm2json.py:267-274 | succeeds exactly when the row exists, and then returns that stored row, which belongs to that table and has that id; otherwise it reports the missing (table, id) |
| GeoModel.ChildrenOfMembers | gm2json.py:304-309 | every row with that parentId and parentTable contributes its projection, and every child comes from such a row |
| GeoModel.ChildrenOfAppend | gm2json.py:306-308 | the filter keeps the query's row order (it distributes over concatenation) |
| GeoModel.GetChildrenOfThisVol | gm2json.py:302-309 | the loop returns exactly `ChildrenOf` of the rows |
| GeoModel.GetLogVolItem | gm2json.py:440-463 | None for a row that is not a logical volume. Otherwise it fails on the first missing material or shape, and succeeds exactly when both exist, giving the name plus the shape (type and parameters) and material (name) of those rows without their ids |
| GeoModel.GetPhysVolItem | gm2json.py:425-438 | None exactly for a row without a logvol column. Otherwise it fails on a missing logical volume or whatever the logvol expansion fails on. On success it keeps the row's id and replaces the logvol reference with the expanded logical volume, tagged "GeoLogVol" |
| TagDicts.Get | gm2json.py:395 | a key has no value exactly when no entry carries it |
| TagDicts.SetTagLaws | gm2json.py:379 | after `tags[k] = v`: k maps to v and other keys keep their values; a new key is appended, an existing key keeps its place |
| TagDicts.SetTagKeepsUniqueKeys | gm2json.py:379 | assignment never creates a second entry for a key |
| TagDicts.SetTagAfter | gm2json.py:379 | assigning the key of a last entry that appears only there replaces that entry |
| TagDicts.DelTagKeepsOthers | gm2json.py:396 | `del tags[k]` leaves every other key with its value |
| TagDicts.DelTagAbsent | gm2json.py:395-396 | removing an absent key changes nothing (the `in` guard) |
| TagDicts.DelTagRemoves | gm2json.py:396 | with unique keys, the deleted key is gone and the keys stay unique |
| TagDicts.DelTagAfter | gm2json.py:396 | deleting the key of a last entry that appears only there drops that entry |
| TagDicts.Values | gm2json.py:503 | the values, one per entry, in insertion order |
| GeoWalk.Walker.constructor | gm2json.py:590 | the walk starts with empty tags and an empty buffer |
| GeoWalk.Walker.GenerateDocument | gm2json.py:498-514 | appends exactly one document and changes nothing else. The document has the depth, the tag values, the twelve numbers of the folded transform, the shape type, parameters, material name and volume name of the expansion, and "atlas_geo" / "vol" |
| GeoWalk.Walker.GetAllNodes | gm2json.py:345-416 | never changes the caller's transform. Ends in exactly the tags and buffer `WalkNode` computes, or stops with the fault it reports |
| GeoWalk.Walker.VisitChildren | gm2json.py:363-397 | the loop over the children, folding into the level's copy, ends in exactly the state `WalkChildren` computes |
| GeoWalk.Walker.VisitChild | gm2json.py:368-397 | one pass of the loop body ends in exactly the folded transform and state `ChildStep` computes |
| WalkProperties.NodeDocsWithin | gm2json.py:393-394 | a walk at depth d <= maxDepth only appends to the buffer, and every document it appends has a depth between d and maxDepth |
| WalkProperties.ChildrenDocsWithin | gm2json.py:365-397 | the loop over the children only appends, within [d, maxDepth] |
| WalkProperties.StepDocsWithin | gm2json.py:386-397 | one child only appends, within [d, maxDepth] |
| WalkProperties.ChildrenDocCount | gm2json.py:378-397 | at least one document per physical-volume child, and exactly one each at the depth limit: name tags, transforms and other rows emit nothing |
| WalkProperties.WalkPrefixThenRest | gm2json.py:365-397 | the loop is its first k children followed by the remaining ones |
| WalkProperties.WalkPrefixTransform | gm2json.py:382-384 | the transform in force at child k is the level's transform with every earlier sibling transform folded in, in order |
| WalkProperties.VolumeDocument | gm2json.py:386-389 | the document of physical-volume child k comes right after the documents of the children before it. It carries the tags of that moment and the transform folded from the sibling transforms before it |
| WalkProperties.FrameLevels | gm2json.py:378-380 | while level d is visited, the tags are ascending with keys at most d, and level d + 1 has no tag |
| WalkProperties.NodeTagsFrame | gm2json.py:378-396 | a walk at depth d started on tags keyed below d returns them unchanged, plus at most a tag for depth d itself |
| WalkProperties.ChildrenTagsFrame | gm2json.py:365-397 | the loop keeps the tags within that frame |
| WalkProperties.StepTagsFrame | gm2json.py:378-397 | one child keeps the frame, and a physical-volume child gives the tags back exactly as it found them |
| WalkProperties.VolumeTagsFrame | gm2json.py:393-396 | after the subtree of a volume, deleting the tag one level down restores the tags the child started with |
| WalkProperties.SetTagFrame | gm2json.py:379 | setting the tag of the current depth keeps the frame |
| WalkProperties.DelTagClosesFrame | gm2json.py:395-396 | deleting the subtree's level gives back the tags it started from |
| WalkProperties.TagsRestoredAfterVolume | gm2json.py:395-396 | after a physical-volume child, level d + 1 has no tag and later siblings see the tags as they were |
| WalkProperties.NodeFaults | gm2json.py:352-372 | the walk stops only on a row the database lacks, or on a non-root start node without a logvol column |
| WalkProperties.ChildrenFaults | gm2json.py:365-397 | the loop stops only on a row the database lacks |
| WalkProperties.StepFaults | gm2json.py:372-397 | one child stops only on a row the database lacks |
| WalkProperties.NodeSucceeds | gm2json.py:345-416 | on a database whose references all resolve, the walk from the root, or from any physical volume, never stops |
| WalkProperties.ChildrenSucceed | gm2json.py:365-397 | the loop never stops when all its children's rows exist |
| WalkProperties.StepSucceeds | gm2json.py:372-397 | a child whose row exists never stops the walk on an intact database |
| WalkProperties.PhysVolExpands | gm2json.py:425-438 | on an intact database every physical volume expands |
| GraphStore.FindSpec | atlas2neo4j_v2.py:168 | `find` returns exactly the positions of the nodes with that label and volId, each once, in store order |
| GraphStore.FindAppend | atlas2neo4j_v2.py:25 | a new node adds its position to `find` exactly when it matches |
| GraphStore.FindUpdate | atlas2neo4j_v2.py:149 | changing a node so that it still matches, or still does not, leaves `find` unchanged |
| GraphStore.EdgeCountSpec | atlas2neo4j_v2.py:41-42 | the `match` count is positive exactly when such an edge is in the store |
| GraphStore.EdgeCountAppend | atlas2neo4j_v2.py:43 | a new edge raises the count of its own kind by one and no other |
| GraphStore.GraphDb.constructor | atlas2neo4j_v2.py:10 | an empty, valid store |
| GraphStore.GraphDb.CreateNode | atlas2neo4j_v2.py:25 | appends one unlabelled node with the properties, returns its position, keeps the edges and the store valid |
| GraphStore.GraphDb.CreateNodeWithRel | atlas2neo4j_v2.py:36 | appends one node and one edge from the parent to it, in one batch |
| GraphStore.GraphDb.CreateRel | atlas2neo4j_v2.py:43 | appends one edge between existing nodes, duplicates allowed |
| GraphStore.GraphDb.AddLabel | atlas2neo4j_v2.py:26 | node i gains one label and nothing else changes |
| GraphStore.GraphDb.UpdateProperties | atlas2neo4j_v2.py:149 | node i's property map is merged with the new values winning, and nothing else changes |
| GraphLoader.GetNodeFromDb | atlas2neo4j_v2.py:166-182 | a node is returned only when exactly one node has that label and volId, and then it is that node. With none, or with two or more, nothing is returned |
| GraphLoader.FindUnique | atlas2neo4j_v2.py:174-182 | a `find` of length one names the only match; any other length leaves no match without a second |
| GraphLoader.GetOrCreate | atlas2neo4j_v2.py:22-26 | a found node is returned with the store unchanged; when the lookup fails (no match, or two or more), a new node labelled with the label and holding only volId is appended and returned; edges are untouched and validity kept |
| GraphLoader.AddPropertiesSpec | atlas2neo4j_v2.py:141-149 | aborts exactly when the lookup fails. Otherwise only that node's property map changes: new keys and values are added, new values win, other keys are kept; its labels, every other node and the edges are unchanged |
| GraphLoader.AddLabelsSpec | atlas2neo4j_v2.py:152-158 | aborts exactly when the lookup fails. Otherwise only that node's labels change, and they become the old labels plus the list's; its properties, every other node and the edges are unchanged |
| GraphLoader.GetOrCreateVol | atlas2neo4j_v2.py:22-26 | the create-then-add-label steps leave exactly the `GetOrCreate` store and node |
| GraphLoader.AttachChildNode | atlas2neo4j_v2.py:33-46 | the per-child steps leave exactly the `AttachChild` store |
| GraphLoader.Create | atlas2neo4j_v2.py:19-49 | the store and the parent returned are exactly `CreateSpec`'s |
| GraphLoader.CreateNode | atlas2neo4j_v2.py:53-64 | the store is exactly the get-or-create of a node of that type |
| GraphLoader.CreateChild | atlas2neo4j_v2.py:69-103 | the store and parent are exactly `CreateChildSpec`'s |
| GraphLoader.CreateReferencedNode | atlas2neo4j_v2.py:107-118 | the store is exactly the get-or-create of a node of that type |
| GraphLoader.AddRel | atlas2neo4j_v2.py:122-137 | reports the abort exactly when `AddRelSpec` does (store then untouched), otherwise leaves its store |
| GraphLoader.AddPropertiesToNode | atlas2neo4j_v2.py:141-149 | reports the abort exactly when `AddPropertiesSpec` does (store then untouched), otherwise leaves its store |
| GraphLoader.AddLabelsToNode | atlas2neo4j_v2.py:152-158 | adding the labels one at a time reports the abort exactly when `AddLabelsSpec` does, otherwise leaves its store |
| GraphProperties.AttachChildEdges | atlas2neo4j_v2.py:33-46 | a child the lookup misses is a new node with exactly one CHILD edge from the parent. A found child keeps its node and ends with one CHILD edge if it had none, or as many as before. The store only grows and stays valid |
| GraphProperties.AttachChildLinks | atlas2neo4j_v2.py:33-46 | afterwards the child has a node linked to the parent by a CHILD edge |
| GraphProperties.AttachAllLinks | atlas2neo4j_v2.py:31-46 | the loop keeps the store valid and growing and links every child id |
| GraphProperties.CreateEstablishes | atlas2neo4j_v2.py:19-49 | after `create`, the parent is a physvol node with that volId. Every child id has a physvol node with a CHILD edge from it. Nothing was removed or changed, and the store is still valid |
| GraphProperties.CreateChildEstablishes | atlas2neo4j_v2.py:69-103 | after `createChild`, the parent has the parent type and id and the child is linked under the child type. A child the lookup missed was created with that label, its volId and its position |
| GraphProperties.GetOrCreateFind | atlas2neo4j_v2.py:22-26 | get-or-create adds a match only for its own label and id, and only after a failed lookup |
| GraphProperties.AttachChildFind | atlas2neo4j_v2.py:33-37 | the same for one child |
| GraphProperties.AttachChildKeepsFound | atlas2neo4j_v2.py:33-46 | attaching a child never disturbs a lookup that succeeds |
| GraphProperties.AttachChildSettles | atlas2neo4j_v2.py:33-46 | attaching an id with at most one node leaves it found and linked, and keeps settled ids settled |
| GraphProperties.AttachAllSettles | atlas2neo4j_v2.py:31-46 | the loop leaves every child id found and linked, given at most one node per id |
| GraphProperties.AttachAllKeepsFound | atlas2neo4j_v2.py:31-46 | the loop never disturbs a lookup that succeeds |
| GraphProperties.AttachAllSettledNoOp | atlas2neo4j_v2.py:38-46 | over ids already found and linked, the loop changes nothing |
| GraphProperties.GetOrCreateSettles | atlas2neo4j_v2.py:22-26 | get-or-create leaves its id found at the node it returns |
| GraphProperties.CreateIdempotent | atlas2neo4j_v2.py:19-49 | with at most one physvol node per id, a second `create` with the same arguments returns the same parent and changes nothing |
| GraphProperties.CreateChildIdempotent | atlas2neo4j_v2.py:69-103 | with at most one node per (type, id) involved, a second `createChild` returns the same parent and changes nothing |
| GraphProperties.AddRelCounts | atlas2neo4j_v2.py:122-137 | aborts exactly when an endpoint is not found. Otherwise only the count of that relationship changes: unique=True makes 0 into 1 and leaves others; unique=False leaves 0 and adds one to any other. The store stays valid |
| GraphProperties.AddPropertiesKeepsLookups | atlas2neo4j_v2.py:141-149 | properties that leave volId alone change no lookup of any label and id |

## Left out

- Process termination. A lookup miss (`.one()` finding no row, or an unknown
  table) is modelled as a `Fail` result that stops the walk. In the loader, an
  abort (`sys.exit`) is `None`, or `ok == false` with the store unchanged.
  Ending the process itself is not modelled.
- The Elasticsearch bulk upload (`store`), which is network I/O, and its error
  handling.
- The SQLAlchemy engine, the session and the ORM reflection (`as_dict`,
  `get_class_by_tablename`, `get_tablename_from_tableid`,
  `get_nodetype_from_tableid`). The database is a read-only value. Node types
  follow from the table ids in the ORM class comments: 1 PhysVols,
  2 FullPhysVols, 3 LogVols, 4 Materials, 5 Shapes, 9 Transforms,
  10 AlignableTransforms, 11 NameTags. Rows of other tables are `Other` and
  skipped, as the walk skips them.
- GeoModel.WellTyped: a schema assumption, not something the program checks.
  Every row is stored under its own table id and item id, and the root row is
  not a child.
- Command-line parsing, the `__main__` drivers, and all printing and logging.
- Dead or broken code:
  - in gm2json.py: `getPhysVolChildrenExpanded`,
    `getSerialTransformerItemExpanded`, `get_phys_vol_children`, `getPhysVol`
    and `dumpAllObjects`;
  - in atlas2neo4j_v2.py: `Node.get_all`.
- The `Node` instance members of atlas2neo4j_v2.py (`__init__`, `__str__`,
  `volId`, `children`). They only read a node.
- Floating point. Transform entries are exact `real`s, so rounding in
  `add_transform` is not modelled.
- py2neo internals and `graph_db.clear()`. The store is reduced to `find`,
  `match`, `create`, `add_labels` and `update_properties`. Node handles are
  positions in the node sequence, and the truthiness test on a found node is
  the `Some` case of an `Option`.
- The `sys.exit` at atlas2neo4j_v2.py:171-173 cannot be reached: the test is
  on a generator object, which is always true, so it is not modelled.
- GeoWalk.Walker.GetAllNodes: the loop over the children is the separate
  method `VisitChildren`, and its body is the separate method `VisitChild`.
  The source writes both inline in `get_all_nodes`. The steps are the same.
- WalkProperties.ChildrenDocCount: below the depth limit it states "at least
  one document per physical volume", because the subtrees add their own.
  `VolumeDocument` pins down the volume's own document.
- GraphProperties.CreateIdempotent and GraphProperties.CreateChildIdempotent
  require at most one matching node per id. With two or more, the lookup
  returns nothing and every run creates another node, as the source does.
- GraphProperties.CreateChildEstablishes: the position is stated only for a
  child created by the call. A child that is found keeps its old properties,
  as in the source.
- GraphLoader.AddPropertiesSpec: a property map that sets `volId` moves the
  node to another id, as `update_properties` would. No lookup property is
  claimed for that case (see `AddPropertiesKeepsLookups`).
