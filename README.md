# djquadtree in Dafny

djquadtree is a quadtree spatial index kept in database tables. It has
three tables:

- **Node**: each row has a parent, a depth, an item count and an extent.
  A count of `None` marks a branch.
- **Item**: each row holds a caller's item id and its bbox.
- **ItemNodeLink**: each row links one item to one node.

The index object (`QuadTree`) stores the extent, `max_items` and
`max_depth`, and a reference to its root.

How the operations work:

- `build` creates a root, then for each (item id, bbox) pair it saves an
  item row and inserts that item at the root. As written, the row takes
  its xmin from `bbox[1]` (see "## Findings"). The model's `Build` takes
  the row maker as a parameter: `Models.MakeItemAsWritten` gives the build
  as written, and `Models.MakeItem` gives the corrected one.
- `insert` at a leaf links the item and raises the count. It then splits
  the leaf once the count exceeds `max_items`, but only above `max_depth`.
- `insert` at a branch recurses into the children of every quadrant that
  the quadrant classifier names for the item's bbox.
- `split` appends four children and reads the leaf's links before deleting
  them. It then marks the leaf a branch and links each former item into
  the child of each of its quadrants.
- `intersect` is one SQL query. A recursive CTE walks down from the
  parentless nodes through every node whose extent strictly overlaps the
  query. The query then joins the links of the visited nodes with the
  items and keeps the items whose bbox strictly overlaps the query.

The model holds the three tables as one value, `Store.Tables`, with row
ids as sequence positions. Children are the rows whose parent is a given
row, in id order. The class `Models.QuadTree` holds the tables in fields
and changes them in place, as the source's methods do. Its methods are
proved against functions that give the new tables exactly:
`AddItemTables`, `SplitTables`, `LeafInserted`, `Inserted` (insert at any
node, recursing through the subnodes of the item's quadrants), `Built`
(the fold of save-then-insert over build's input) and `Query.Intersect`. The properties of those functions are
proved as lemmas:

- the tree invariant `Store.WellFormed`;
- the placement predicate `Store.Covered`: an item at a leaf is linked
  there, and an item at a branch is placed in the child of every quadrant
  of its bbox;
- the locality predicates `Store.KeptElsewhere`, `KeptBeyond` and
  `KeptOutside`;
- soundness, completeness and duplicate-keeping of the query.

Modules, in dependency order:

- `Geometry`: boxes; the centre and the child extents computed as
  `__init__` and `split` compute them; the quadrant classifier.
- `Store`: the tables; the tree invariant; `add_item`; the split tables;
  placement and locality.
- `Splitting`: proofs about `split`. The staged relinking here follows the
  method's loops.
- `Insertion`: the leaf case of `insert`.
- `Query`: the CTE traversal and the join.
- `Models`: the `QuadTree` class and the item rows `build` saves.

Coordinates are `real`. `Geometry.Overlaps` is the strict test the query
uses, `x1 < xmax AND x2 > xmin AND y1 < ymax AND y2 > ymin`.

## Model

| member | source | states |
|---|---|---|
| Geometry.Center | djquadtree/models.py:132-136 | The centre computed from the half-extents is the midpoint of the extent, and it lies in a proper extent. |
| Geometry.ChildExtent | djquadtree/models.py:207-221 | The quarter-width boxes split builds for quadrants 1..4 are exactly the four quadrants of the parent, cut at its centre. |
| Geometry.QuadrantsMember | djquadtree/models.py:190-203 | A quadrant is in the classifier's result if and only if the bbox reaches it: west when xmin <= cx, east when xmax > cx, south when ymin <= cy, north when ymax >= cy. |
| Geometry.QuadrantsNonEmpty | djquadtree/models.py:190-203 | A proper bbox is sent to at least one quadrant. |
| Geometry.QuadrantsDistinct | djquadtree/models.py:190-203 | The classifier names no quadrant twice. |
| Geometry.ChildrenCover | djquadtree/models.py:207-221 | Every point of a proper parent extent lies in one of the four child extents. |
| Geometry.ChildWithinParent | djquadtree/models.py:207-221 | Every point of a child extent lies in the parent extent. |
| Geometry.ChildInteriorsDisjoint | djquadtree/models.py:207-221 | No point is interior to two different child extents. |
| Geometry.ChildrenInCornerOrder | djquadtree/models.py:218-221 | For a parent of positive area, the children in creation order are strictly increasing in (ymin, xmin), and each child has positive area. |
| Geometry.QuadrantReachesQuery | djquadtree/models.py:181-188 | If a node overlaps the query and a proper item bbox overlaps a query of positive area, then one quadrant the classifier names for the bbox is a child that still overlaps the query. |
| Store.NewRootKeeps | djquadtree/models.py:26-28 | Appending a root keeps the tree invariant and every placement, only grows the tree, and the new row is a root. |
| Store.NewItemKeeps | djquadtree/models.py:65-66 | Saving an item row keeps the tree invariant and every placement. |
| Store.DepthBounded | djquadtree/models.py:175 | Every node's depth is between 0 and max_depth, because a node is split only above max_depth and its children are one level deeper (a root has depth 0 even when max_depth is negative). |
| Store.LeafIffChildless | djquadtree/models.py:152-156 | Under the invariant, the count test of is_leaf agrees with the old child-count rule: a node is a leaf if and only if it has no children, and a branch has exactly four. |
| Store.ChildrenSorted | djquadtree/models.py:144-145 | When the index extent has positive area, a branch's children in id order are strictly increasing in (ymin, xmin), so subnodes()[q-1] is the child for quadrant q. |
| Store.BranchHoldsNoLinks | djquadtree/models.py:231-238 | Under the invariant, a branch has no links. |
| Store.ChildrenLater | djquadtree/models.py:214-224 | Children get ids after their parent's id. |
| Store.AddItemLinks | djquadtree/models.py:253-261 | On a leaf, add_item adds exactly one link (n, i), raises the count by one, and changes no other node's links. |
| Store.AddItemKeepsWellFormed | djquadtree/models.py:253-261 | add_item of an existing item on a leaf keeps the tree invariant, including the rule that a leaf's count equals its number of links. |
| Store.AddItemKeepsCoverage | djquadtree/models.py:253-261 | add_item on a leaf keeps the tree's shape and every placement, and places the item at that leaf. |
| Store.HomedKept | djquadtree/models.py:162-188 | An item stays placed under its root across a change that keeps the items, grows the tree and keeps placements. |
| Store.BeyondFromOutside | djquadtree/models.py:184-188 | If insert leaves every node outside the named children's subtrees untouched, then it leaves every node outside the branch's own subtree untouched. |
| Store.KeptStep | djquadtree/models.py:184-188 | A recursive insert into the child of quadrant q touches nothing outside that child's subtree, so after it, every node outside the subtrees of the quadrants visited so far is untouched. |
| Splitting.SplitRelinks | djquadtree/models.py:205-251 | After a split, four leaves one level deeper exist for quadrants 1..4, each counting its own links, and the node is a branch with no links. An item is linked into child q if and only if it was linked to the node and q is one of its quadrants. No other node's row or links change, and no other link is created. |
| Splitting.SplitChildren | djquadtree/models.py:214-224 | After a split, the node's children are the four new rows in creation order; every other node keeps its children. |
| Splitting.SplitKeeps | djquadtree/models.py:205-251 | Splitting a leaf above max_depth has the effect above, keeps the tree invariant, only grows the tree (a branch stays a branch), and keeps every placement. |
| Insertion.LeafInsertion | djquadtree/models.py:166-176 | insert at a leaf: the node is a branch afterwards if and only if count + 1 > max_items and depth < max_depth. If it stays a leaf, it gained exactly the link to the item and its count is one higher. If it became a branch, the step after add_item is exactly a split. The invariant holds, the item is placed at the node, and no other node's row or links change. |
| Query.TraversalExact | djquadtree/models.py:78-91 | The top-down walk from every root visits a node if and only if the CTE admits it: the node overlaps the query and is a root or has a visited parent. |
| Query.IntersectMember | djquadtree/models.py:69-108 | An item row is returned if and only if its bbox overlaps the query and it is linked to a visited node. |
| Query.IntersectDuplicates | djquadtree/models.py:92-101 | An item linked from two visited nodes is returned at least twice: no deduplication. |
| Query.IntersectComplete | djquadtree/models.py:69-108 | An item placed under a root, with a proper bbox that overlaps a query of positive area overlapping the index extent, is returned. |
| Models.MakeItemAsWrittenMissed | djquadtree/models.py:65 | As written, the bbox (0, 5, 1, 6) is stored as the improper (5, 5, 1, 6). A query for exactly that bbox never returns it, whatever the tables. |
| Models.MakeItemFound | djquadtree/models.py:65 | With the corrected row, the same item is returned by a query for its own bbox once it is placed under a root. |
| Models.MakeItemAsWrittenUnlinked | djquadtree/models.py:65 | As written, the pair (3, (0, 6, 4, 8)) is stored as (6, 6, 4, 8). That row reaches no quadrant about the centre (5, 5), so inserting it at a branch over (0, 0, 10, 10) leaves the tables unchanged and links it nowhere. The bbox as given reaches quadrant 3. |
| Query.ZeroWidthQueryMissed | djquadtree/models.py:69-101 | In a well-formed index split once over (0, 0, 10, 10), the zero-width query (5, 1, 5, 2) strictly overlaps the index extent and the item (4, 1, 6, 2) placed at the root, but the item is not returned: no child extent passes the strict test. |
| Models.QuadTree.constructor | djquadtree/models.py:17-24 | A new index has the given extent and limits, empty tables and no root. |
| Models.QuadTree.Default | djquadtree/models.py:22-23 | A new index with the defaults max_items = 10 and max_depth = 20. |
| Models.QuadTree.CreateRoot | djquadtree/models.py:26-28 | Appends the root row and records it as the root; keeps the invariant and every item's placement. |
| Models.QuadTree.AddItem | djquadtree/models.py:253-261 | Appends the link row and raises the count; a branch's missing count becomes 1. |
| Models.QuadTree.Split | djquadtree/models.py:205-251 | The tables become exactly the split tables, which SplitKeeps and SplitRelinks describe. |
| Models.QuadTree.Relink | djquadtree/models.py:241-247 | One former item is added to the new child of each of its quadrants, in quadrant order. |
| Models.QuadTree.RelinkInto | djquadtree/models.py:245-247 | For any list of distinct quadrants, adds the item to the new child of each in turn; the tables become exactly the staged tables with those quadrants served. |
| Models.QuadTree.Insert | djquadtree/models.py:162-188 | The new tables are exactly `Inserted`: at a leaf, the leaf insertion; at a branch, the recursive insertions into the subnodes of the item's quadrants, in order. It keeps the invariant, only grows the tree, keeps every placement and places the item at n. At a branch the node's row is unchanged and it holds no links. No node outside n's subtree changes, and at a branch nothing outside the subtrees of the item's quadrants changes. |
| Models.QuadTree.InsertIntoSubnodes | djquadtree/models.py:179-188 | The branch case: the new tables are exactly the insertions into subnodes()[q-1] for the item's quadrants q, in order. The item is placed in each of those children, the branch keeps its row and holds no links, and no node outside those children's subtrees changes. |
| Models.QuadTree.InsertIntoQuadrants | djquadtree/models.py:184-188 | The loop over the branch's quadrants: after it the tables are exactly the insertions into the listed subnodes in order, each listed child holds the item, the branch keeps its row and children, and nothing outside the listed children's subtrees changes. |
| Models.QuadTree.SaveAndInsert | djquadtree/models.py:64-67 | One pass of build's loop with a given row maker: the item table gains that row, and the new tables are exactly `Inserted` of the row at the current root. It keeps the invariant, places the row under the root and keeps every earlier placement. |
| Models.QuadTree.Build | djquadtree/models.py:39-67 | Creates a fresh root. The new tables are exactly `Built`: each input pair's row, from a given row maker, is saved and inserted at that root, in input order. The item table gains exactly those rows, every new item is placed under that root, earlier items keep their placement, and the invariant holds. With `MakeItemAsWritten` this is the build as written. |
| Models.QuadTree.Intersect | djquadtree/models.py:69-108 | Returns the query's result. Every returned item's bbox overlaps the query. For a query of positive area that overlaps the extent, every item with a proper overlapping bbox is returned. |

## Left out

- The Django ORM, the SQL text and persistence are not modelled. The `save()` calls, primary keys and the `index` foreign key are left out: the tables are values holding one index's rows.
- `QuadTree.depth` (models.py:34-35) is not modelled. It would run an ORM aggregate, but it names `Max`, which the module never imports (models.py:1-2), so as written it raises a NameError. `Store.DepthBounded` states a bound on the maximum depth instead.
- The query text as written cannot run against the tables Django creates. It names `Node.items.through` (models.py:106), but Node has no `items` relation: the many-to-many field at models.py:116 is commented out, and the link table is `ItemNodeLink`. It also filters on a column `"index"` (models.py:79), but the foreign key column is `index_id`. The model gives the query its evident meaning: the recursive traversal over this index's nodes, joined with `ItemNodeLink` and the items.
- The commented-out `count` and the chunked `bulk_create` path of `build` are not modelled, because they are not live code.
- Coordinates are `real`. The floating-point rounding of the half- and quarter-extent arithmetic is not modelled.
- Order of the query result: SQL gives no order guarantee, and the model returns rows in link order.
- The CTE's `depth` and `path` columns are not modelled, because the final select does not use them.
- The `DEBUG` prints are not modelled; they are `pass`.
- `build`'s `chunksize` argument is not modelled, because the live loop does not use it.
- `tests.py` and `forms.py` are not part of this model.
- `self.root = root` in `create_root` is not saved by the source. The model records the root in the object, as the in-memory object does. A later `build` creates another parentless node, and the query starts from every parentless node, as the CTE does.
- Models.QuadTree.Intersect: completeness is stated only for queries of positive width and height that overlap the index extent, and only for items with a proper bbox. The strict overlap test loses exact boundary touches, and `Query.ZeroWidthQueryMissed` shows a zero-width query that misses an overlapping item. Soundness and the exact membership rule (`Query.IntersectMember`) hold for every input.
- Store.ChildrenSorted: stated only when the index extent has positive area. For a zero-width or zero-height extent, children tie on (ymin, xmin), and the database order of `subnodes()` is unspecified. Under that order the model still uses children in creation order.
- Configuration and geometry validation is not modelled, because the source performs none: any extent, `max_items` or `max_depth` is accepted, and so is a bbox with xmin > xmax.
- The query has no DISTINCT, so an item is returned once per visited link (`Query.IntersectDuplicates`).

## Findings

| source | as written | input that shows it | evidently intended | confidence | as-written member | corrected member |
|---|---|---|---|---|---|---|
| djquadtree/models.py:65 | the saved item's xmin is `bbox[1]`, the y1 coordinate | build with the pair (7, (0, 5, 1, 6)) stores the bbox (5, 5, 1, 6), and a query for (0, 5, 1, 6) never returns it. The pair (3, (0, 6, 4, 8)) is stored as (6, 6, 4, 8), and at a branch over (0, 0, 10, 10) it is linked nowhere (`Models.MakeItemAsWrittenUnlinked`) | xmin is `bbox[0]`, so the stored bbox is the given one | not executed | Models.MakeItemAsWrittenMissed | Models.MakeItemFound |
