/**
 * The index object and the operations that change its tables: creating a
 * root, building from (item id, bbox) pairs, inserting an item at a node,
 * linking an item to a node and splitting a leaf; and the intersection
 * query over the current tables.
 */
module Models {
  import opened Geometry
  import opened Store
  import opened Splitting
  import opened Insertion
  import Query

  /** The default leaf capacity and depth ceiling. */
  const MAX_ITEMS := 10
  const MAX_DEPTH := 20

  /** The item row build saves for an input pair, with the bbox (x1, y1, x2, y2) stored as given. */
  function MakeItem(itemId: int, bbox: Box): Item {
    Item(itemId, bbox)
  }

  /** The item row build saves as written: xmin is taken from bbox[1], the y1 coordinate. */
  function MakeItemAsWritten(itemId: int, bbox: Box): Item {
    Item(itemId, Box(bbox.ymin, bbox.ymin, bbox.xmax, bbox.ymax))
  }

  /**
   * As written, the bbox (0, 5, 1, 6) is stored as (5, 5, 1, 6), which is not
   * even proper; a query for exactly the original bbox never returns it,
   * whatever the tables, although the original bbox overlaps the query.
   */
  lemma MakeItemAsWrittenMissed(t: Tables, i: nat)
    requires i < |t.items| && t.items[i] == MakeItemAsWritten(7, Box(0.0, 5.0, 1.0, 6.0))
    ensures t.items[i].bbox != Box(0.0, 5.0, 1.0, 6.0) && !Proper(t.items[i].bbox)
    ensures Overlaps(Box(0.0, 5.0, 1.0, 6.0), Box(0.0, 5.0, 1.0, 6.0))
    ensures i !in Query.Intersect(t, Box(0.0, 5.0, 1.0, 6.0))
  {
    Query.IntersectMember(t, Box(0.0, 5.0, 1.0, 6.0), i);
  }

  /**
   * As written, inserting the pair (3, (0, 6, 4, 8)) at a branch with extent
   * (0, 0, 10, 10) links it nowhere: its stored bbox (6, 6, 4, 8) reaches no
   * quadrant about the centre (5, 5), so the tables stay as they are. The
   * bbox as given reaches quadrant 3.
   */
  lemma MakeItemAsWrittenUnlinked(t: Tables, maxItems: int, maxDepth: int, n: nat, i: nat)
    requires n < |t.nodes| && !t.nodes[n].IsLeaf() && t.nodes[n].extent == Box(0.0, 0.0, 10.0, 10.0)
    requires i < |t.items| && t.items[i] == MakeItemAsWritten(3, Box(0.0, 6.0, 4.0, 8.0))
    ensures Proper(Box(0.0, 6.0, 4.0, 8.0)) && Quadrants(Box(0.0, 6.0, 4.0, 8.0), Center(t.nodes[n].extent)) == [3]
    ensures Quadrants(t.items[i].bbox, Center(t.nodes[n].extent)) == []
    ensures Inserted(t, maxItems, maxDepth, n, i) == t
  {
    assert Center(t.nodes[n].extent) == Point(5.0, 5.0);
  }

  /**
   * With the row stored as given, the same item is returned by a query for
   * its own bbox once it is placed under a root whose extent that bbox
   * overlaps.
   */
  lemma MakeItemFound(t: Tables, extent: Box, maxDepth: int, r: nat, i: nat)
    requires WellFormed(t, extent, maxDepth) && r < |t.nodes| && t.nodes[r].parent.None?
    requires Covered(t, r, i) && t.items[i] == MakeItem(7, Box(0.0, 5.0, 1.0, 6.0))
    requires Overlaps(Box(0.0, 5.0, 1.0, 6.0), extent)
    ensures i in Query.Intersect(t, Box(0.0, 5.0, 1.0, 6.0))
  {
    Query.IntersectComplete(t, extent, maxDepth, r, i, Box(0.0, 5.0, 1.0, 6.0));
  }

  /** The item rows build saves for its input, in input order, each made by `row`. */
  function MakeItems(input: seq<(int, Box)>, row: (int, Box) -> Item): seq<Item> {
    seq(|input|, j requires 0 <= j < |input| => row(input[j].0, input[j].1))
  }

  lemma MakeItemsNext(input: seq<(int, Box)>, row: (int, Box) -> Item, j: nat)
    requires j < |input|
    ensures MakeItems(input[..j + 1], row) == MakeItems(input[..j], row) + [row(input[j].0, input[j].1)]
  {
    PrefixNext(input, j);
  }

  /**
   * The tables build leaves for its input, starting from tables t in which
   * its root r already exists: for each pair in input order, the row `row`
   * makes of it is appended to the item table and then inserted at r.
   */
  function Built(t: Tables, maxItems: int, maxDepth: int, r: nat, input: seq<(int, Box)>, row: (int, Box) -> Item): Tables
    decreases |input|
  {
    if input == [] then t
    else
      var t' := Built(t, maxItems, maxDepth, r, input[..|input| - 1], row);
      var last := input[|input| - 1];
      Inserted(t'.(items := t'.items + [row(last.0, last.1)]), maxItems, maxDepth, r, |t'.items|)
  }

  /** One more pair of build's input: its row saved and inserted at the root. */
  lemma BuiltNext(t: Tables, maxItems: int, maxDepth: int, r: nat, input: seq<(int, Box)>, row: (int, Box) -> Item, j: nat)
    requires j < |input|
    ensures var t' := Built(t, maxItems, maxDepth, r, input[..j], row);
      Built(t, maxItems, maxDepth, r, input[..j + 1], row)
        == Inserted(t'.(items := t'.items + [row(input[j].0, input[j].1)]), maxItems, maxDepth, r, |t'.items|)
  {
    assert input[..j + 1][..j] == input[..j];
  }

  class QuadTree {
    /** The index extent (xmin, ymin, xmax, ymax), max_items and max_depth. */
    const extent: Box
    const maxItems: int
    const maxDepth: int
    /** The node, item and link tables. */
    var nodes: seq<Node>
    var items: seq<Item>
    var links: seq<Link>
    /** The root the last create_root made. */
    var root: Option<nat>
    /** For each item row, the root it was inserted under. */
    ghost var home: seq<nat>

    /** The three tables as one value. */
    function Db(): Tables
      reads this`nodes, this`items, this`links
    {
      Tables(nodes, items, links)
    }

    /** The tree invariant, and the recorded root is a root. */
    ghost predicate Valid()
      reads this
    {
      && WellFormed(Db(), extent, maxDepth)
      && (root.Some? ==> IsRoot(nodes, root.value))
    }

    /** Every item row is placed under the root it was inserted at. */
    ghost predicate Indexed()
      reads this
    {
      Homed(Db(), home)
    }

    /** A new, empty index. */
    constructor(extent: Box, maxItems: int, maxDepth: int)
      ensures this.extent == extent && this.maxItems == maxItems && this.maxDepth == maxDepth
      ensures nodes == [] && items == [] && links == [] && root == None
      ensures Valid() && Indexed()
    {
      this.extent := extent;
      this.maxItems := maxItems;
      this.maxDepth := maxDepth;
      nodes := [];
      items := [];
      links := [];
      root := None;
      home := [];
    }

    /** A new, empty index with the default limits. */
    constructor Default(extent: Box)
      ensures this.extent == extent && maxItems == MAX_ITEMS && maxDepth == MAX_DEPTH
      ensures nodes == [] && items == [] && links == [] && root == None
      ensures Valid() && Indexed()
    {
      this.extent := extent;
      maxItems := MAX_ITEMS;
      maxDepth := MAX_DEPTH;
      nodes := [];
      items := [];
      links := [];
      root := None;
      home := [];
    }

    /** create_root: a new empty leaf at depth 0 over the index extent, recorded as the root. */
    method CreateRoot()
      requires Valid() && Indexed()
      modifies this
      ensures nodes == old(nodes) + [RootRow(extent)] && items == old(items) && links == old(links)
      ensures root == Some(|old(nodes)|) && home == old(home)
      ensures Valid() && Indexed() && Grows(old(nodes), nodes) && CoverageKept(old(Db()), Db())
    {
      ghost var t0 := Db();
      NewRootKeeps(t0, extent, maxDepth);
      nodes := nodes + [RootRow(extent)];
      root := Some(|nodes| - 1);
      HomedKept(t0, Db(), home);
    }

    /** add_item: link item i to node n and count it (a branch's missing count becomes 1). */
    method AddItem(n: nat, i: nat)
      requires n < |nodes|
      modifies this
      ensures Db() == AddItemTables(old(Db()), n, i)
      ensures root == old(root) && home == old(home)
    {
      links := links + [Link(n, i)];
      var x := nodes[n];
      var count := if x.itemCount.None? then 1 else x.itemCount.value + 1;
      nodes := nodes[n := x.(itemCount := Some(count))];
    }

    /**
     * split: append the four children, read and delete d's links, mark d a
     * branch, then add each former item to the child of each of its
     * quadrants about d's centre.
     */
    method Split(d: nat)
      requires d < |nodes|
      modifies this
      ensures Db() == SplitTables(old(Db()), d)
      ensures root == old(root) && home == old(home)
    {
      ghost var t0 := Db();
      StagedStart(t0, d);
      var x := nodes[d];
      var k := |nodes|;
      nodes := nodes + [NewChild(d, x, 1, 0), NewChild(d, x, 2, 0), NewChild(d, x, 3, 0), NewChild(d, x, 4, 0)];
      var former := LinkedItems(links, d);
      links := WithoutNode(links, d);
      nodes := nodes[d := x.(itemCount := None)];
      var j := 0;
      while j < |former|
        invariant 0 <= j <= |former|
        invariant Db() == Staged(t0, d, former[..j], 0, [])
        invariant root == old(root) && home == old(home)
      {
        Relink(t0, d, k, former[..j], former[j]);
        PrefixNext(former, j);
        j := j + 1;
      }
      assert former[..j] == former;
      StagedDone(t0, d);
    }

    /**
     * One pass of split's relinking loop: add_item of the former item `it`
     * into the new child of each quadrant its bbox reaches, in quadrant order.
     */
    method Relink(ghost t0: Tables, d: nat, k: nat, ghost done: seq<nat>, it: nat)
      requires d < |t0.nodes| && k == |t0.nodes| && Db() == Staged(t0, d, done, 0, [])
      modifies this
      ensures Db() == Staged(t0, d, done + [it], 0, [])
      ensures root == old(root) && home == old(home)
    {
      StagedFrame(t0, d, done, 0, []);
      var quads := QuadsOf(items, it, Center(nodes[d].extent));
      QuadsOfDistinct(t0.items, it, Center(t0.nodes[d].extent));
      StagedIdle(t0, d, done, it);
      RelinkInto(t0, d, k, done, it, quads);
      StagedNext(t0, d, done, it);
    }

    /** The loop of one relinking pass: add_item of `it` into child q - 1 for each q in quads, in order. */
    method RelinkInto(ghost t0: Tables, d: nat, k: nat, ghost done: seq<nat>, it: nat, quads: seq<Quad>)
      requires d < |t0.nodes| && k == |t0.nodes| && Db() == Staged(t0, d, done, it, [])
      requires forall j, j' :: 0 <= j < j' < |quads| ==> quads[j] != quads[j']
      modifies this
      ensures Db() == Staged(t0, d, done, it, quads)
      ensures root == old(root) && home == old(home)
    {
      var e := 0;
      while e < |quads|
        invariant 0 <= e <= |quads|
        invariant Db() == Staged(t0, d, done, it, quads[..e])
        invariant root == old(root) && home == old(home)
      {
        ghost var before := Db();
        ghost var next := Staged(t0, d, done, it, quads[..e + 1]);
        StagedAddStep(t0, d, done, it, quads, e, k);
        assert AddItemTables(before, k + quads[e] - 1, it) == next;
        AddItem(k + quads[e] - 1, it);
        e := e + 1;
      }
      assert quads[..e] == quads;
    }

    /**
     * insert(item) at node n: at a leaf, add the link and split when the
     * leaf then holds more than maxItems items above maxDepth; at a branch,
     * insert into the subnodes of the item's quadrants.
     */
    method Insert(n: nat, i: nat)
      requires Valid() && n < |nodes| && i < |items|
      modifies this
      ensures Valid() && items == old(items) && root == old(root) && home == old(home)
      ensures Grows(old(nodes), nodes) && CoverageKept(old(Db()), Db()) && Covered(Db(), n, i)
      ensures Db() == Inserted(old(Db()), maxItems, maxDepth, n, i)
      ensures KeptBeyond(old(Db()), Db(), n)
      ensures old(nodes[n].IsLeaf()) ==> Db() == LeafInserted(old(Db()), maxItems, maxDepth, n, i)
      ensures !old(nodes[n].IsLeaf()) ==> nodes[n] == old(nodes[n]) && LinkedItems(links, n) == []
      ensures !old(nodes[n].IsLeaf()) ==>
        KeptOutside(old(Db()), Db(), Children(old(nodes), n), Quadrants(old(items[i].bbox), Center(old(nodes[n].extent))))
      decreases maxDepth - nodes[n].depth, 2
    {
      ghost var t0 := Db();
      if nodes[n].IsLeaf() {
        LeafInsertion(t0, extent, maxItems, maxDepth, n, i);
        AddItem(n, i);
        if nodes[n].itemCount.value > maxItems && nodes[n].depth < maxDepth {
          Split(n);
        }
        assert Db() == LeafInserted(t0, maxItems, maxDepth, n, i);
        if root.Some? {
          GrowsKeepsRoot(t0.nodes, nodes, root.value);
        }
        BeyondFromElsewhere(t0, Db(), n);
      } else {
        assert FamilyOk(nodes, links, n) && NodeOk(nodes, n, extent, maxDepth);
        InsertIntoSubnodes(n, i);
        BeyondFromOutside(t0, Db(), extent, maxDepth, n, Quadrants(t0.items[i].bbox, Center(t0.nodes[n].extent)));
      }
    }

    /**
     * The branch case of insert: for each quadrant q the classifier names
     * for the item's bbox about n's centre, in order, insert into the
     * subnode q - 1. The branch itself keeps its row and holds no links.
     */
    method InsertIntoSubnodes(n: nat, i: nat)
      requires Valid() && n < |nodes| && !nodes[n].IsLeaf() && i < |items|
      modifies this
      ensures Valid() && items == old(items) && root == old(root) && home == old(home)
      ensures Grows(old(nodes), nodes) && CoverageKept(old(Db()), Db()) && Covered(Db(), n, i)
      ensures nodes[n] == old(nodes[n]) && LinkedItems(links, n) == []
      ensures |Children(old(nodes), n)| == 4 && Db() == InsertedInto(old(Db()), maxItems, maxDepth, old(nodes[n].depth),
        Children(old(nodes), n), Quadrants(old(items[i].bbox), Center(old(nodes[n].extent))), i)
      ensures KeptOutside(old(Db()), Db(), Children(old(nodes), n), Quadrants(old(items[i].bbox), Center(old(nodes[n].extent))))
      decreases maxDepth - nodes[n].depth, 1
    {
      ghost var t0 := Db();
      var quads := Quadrants(items[i].bbox, Center(nodes[n].extent));
      var subnodes := Children(nodes, n);
      assert FamilyOk(nodes, links, n) && NodeOk(nodes, n, extent, maxDepth);
      ChildrenLater(t0, extent, maxDepth, n);
      InsertIntoQuadrants(n, i, subnodes, quads);
      BranchDone(t0, Db(), extent, maxItems, maxDepth, n, subnodes, i);
    }

    /** The loop of insert's branch case: insert into subnodes[q - 1] for each q in quads, in order. */
    method InsertIntoQuadrants(n: nat, i: nat, subnodes: seq<nat>, quads: seq<Quad>)
      requires Valid() && n < |nodes| && !nodes[n].IsLeaf() && nodes[n].depth < maxDepth && i < |items|
      requires subnodes == Children(nodes, n) && |subnodes| == 4
      modifies this
      ensures Valid() && items == old(items) && root == old(root) && home == old(home)
      ensures BranchProgress(old(Db()), Db(), maxItems, maxDepth, n, subnodes, quads, i)
      decreases maxDepth - nodes[n].depth, 0
    {
      ghost var t0 := Db();
      var e := 0;
      while e < |quads|
        invariant 0 <= e <= |quads|
        invariant Valid() && items == t0.items && root == old(root) && home == old(home)
        invariant BranchProgress(t0, Db(), maxItems, maxDepth, n, subnodes, quads[..e], i)
      {
        var child := subnodes[quads[e] - 1];
        assert NodeOk(nodes, child, extent, maxDepth);
        ghost var before := Db();
        Insert(child, i);
        BranchStep(t0, before, Db(), maxItems, maxDepth, n, subnodes, quads, e, i);
        e := e + 1;
      }
      assert quads[..e] == quads;
    }

    /**
     * One pass of build's loop: save the row `row` makes of (itemId, bbox)
     * and insert it at the root.
     */
    method SaveAndInsert(itemId: int, bbox: Box, row: (int, Box) -> Item)
      requires Valid() && Indexed() && root.Some?
      modifies this
      ensures Valid() && Indexed() && root == old(root)
      ensures items == old(items) + [row(itemId, bbox)] && home == old(home) + [root.value]
      ensures Db() == Inserted(old(Db()).(items := old(items) + [row(itemId, bbox)]), maxItems, maxDepth, root.value, |old(items)|)
      ensures Grows(old(nodes), nodes) && CoverageKept(old(Db()), Db())
    {
      var r := root.value;
      var item := row(itemId, bbox);
      ghost var before := Db();
      ghost var homes := home;
      var id := |items|;
      NewItemKeeps(before, extent, maxDepth, item);
      items := items + [item];
      home := home + [r];
      ghost var saved := Db();
      assert saved.items[..id] == before.items;
      Insert(r, id);
      ItemStep(before, saved, Db(), homes, r);
    }

    /**
     * build(items): create a new root, then save the row `row` makes of each
     * input pair and insert it at that root. The source's build saves
     * MakeItemAsWritten rows; MakeItem gives the rows as intended.
     */
    method Build(input: seq<(int, Box)>, row: (int, Box) -> Item)
      requires Valid() && Indexed()
      modifies this
      ensures Valid() && Indexed()
      ensures Db() == Built(old(Db()).(nodes := old(nodes) + [RootRow(extent)]), maxItems, maxDepth, |old(nodes)|, input, row)
      ensures items == old(items) + MakeItems(input, row)
      ensures root == Some(|old(nodes)|) && IsRoot(nodes, |old(nodes)|)
      ensures |home| == |items| && forall j :: |old(items)| <= j < |items| ==> home[j] == |old(nodes)|
      ensures Grows(old(nodes), nodes) && CoverageKept(old(Db()), Db())
    {
      ghost var t0 := Db();
      CreateRoot();
      ghost var t1 := Db();
      var r: nat := |nodes| - 1;
      var j := 0;
      while j < |input|
        invariant 0 <= j <= |input|
        invariant Valid() && Indexed() && root == Some(r) && r == |t0.nodes|
        invariant Db() == Built(t1, maxItems, maxDepth, r, input[..j], row)
        invariant items == t0.items + MakeItems(input[..j], row)
        invariant forall m :: |t0.items| <= m < |items| ==> home[m] == r
        invariant Grows(t0.nodes, nodes) && CoverageKept(t0, Db())
      {
        ghost var before := Db();
        BuiltNext(t1, maxItems, maxDepth, r, input, row, j);
        SaveAndInsert(input[j].0, input[j].1, row);
        GrowsTrans(t0.nodes, before.nodes, nodes);
        CoverageTrans(t0, before, Db());
        MakeItemsNext(input, row, j);
        j := j + 1;
      }
      assert input[..j] == input;
    }

    /**
     * intersect(bbox): the item rows whose stored bbox strictly overlaps the
     * query and that are linked to a node the traversal visits, once per
     * such link. Every one overlaps the query; and every item with a proper
     * bbox overlapping a query of positive width and height that overlaps
     * the index extent is among them.
     */
    method Intersect(q: Box) returns (r: seq<nat>)
      requires Valid() && Indexed()
      ensures r == Query.Intersect(Db(), q)
      ensures forall i :: i in r ==> i < |items| && Overlaps(q, items[i].bbox)
      ensures Solid(q) && Overlaps(q, extent) ==>
        forall i :: 0 <= i < |items| && Proper(items[i].bbox) && Overlaps(q, items[i].bbox) ==> i in r
    {
      r := Query.Intersect(Db(), q);
      forall i | i in r ensures i < |items| && Overlaps(q, items[i].bbox) {
        Query.IntersectMember(Db(), q, i);
      }
      if Solid(q) && Overlaps(q, extent) {
        forall i | 0 <= i < |items| && Proper(items[i].bbox) && Overlaps(q, items[i].bbox) ensures i in r {
          Query.IntersectComplete(Db(), extent, maxDepth, home[i], i, q);
        }
      }
    }
  }
}
