/**
 * The three tables of the index as values: node rows (parent id, depth,
 * item count, extent), item rows (caller id, bbox) and the item-node link
 * rows. Ids are positions in the sequences. This module states the tree
 * invariant, the placement of items in the tree, and the effect of the
 * two table updates that insertion is built from: adding one link to a
 * node, and splitting a leaf.
 */
module Store {
  import opened Geometry

  datatype Option<T> = None | Some(value: T)

  /** A node row. An item count of None marks a branch; Some(k) a leaf. */
  datatype Node = Node(parent: Option<nat>, depth: int, itemCount: Option<int>, extent: Box) {
    predicate IsLeaf() {
      itemCount.Some?
    }
  }

  /** An item row: the caller's id (not necessarily unique) and the stored bbox. */
  datatype Item = Item(itemId: int, bbox: Box)

  /** A link row: item `item` is reachable through node `node`. */
  datatype Link = Link(node: nat, item: nat)

  datatype Tables = Tables(nodes: seq<Node>, items: seq<Item>, links: seq<Link>)

  /** Row r exists and has no parent. */
  predicate IsRoot(nodes: seq<Node>, r: nat) {
    r < |nodes| && nodes[r].parent.None?
  }

  // ---------------------------------------------------------------------
  // Children: the rows whose parent is a given node, in id order
  // ---------------------------------------------------------------------

  /** The ids below k whose parent is p, in increasing order. */
  function ChildrenBelow(nodes: seq<Node>, p: nat, k: nat): (ks: seq<nat>)
    requires k <= |nodes|
    ensures forall j :: 0 <= j < |ks| ==> ks[j] < k && nodes[ks[j]].parent == Some(p)
  {
    if k == 0 then []
    else ChildrenBelow(nodes, p, k - 1) + (if nodes[k - 1].parent == Some(p) then [k - 1] else [])
  }

  /** The children of p: every row whose parent is p, in creation order. */
  function Children(nodes: seq<Node>, p: nat): (ks: seq<nat>)
    ensures forall j :: 0 <= j < |ks| ==> ks[j] < |nodes| && nodes[ks[j]].parent == Some(p)
  {
    ChildrenBelow(nodes, p, |nodes|)
  }

  lemma {:induction false} ChildrenBelowComplete(nodes: seq<Node>, p: nat, k: nat, m: nat)
    requires m < k <= |nodes| && nodes[m].parent == Some(p)
    ensures m in ChildrenBelow(nodes, p, k)
  {
    if m < k - 1 {
      ChildrenBelowComplete(nodes, p, k - 1, m);
    }
  }

  predicate Increasing(s: seq<nat>) {
    forall i, j :: 0 <= i < j < |s| ==> s[i] < s[j]
  }

  lemma {:induction false} ChildrenBelowIncreasing(nodes: seq<Node>, p: nat, k: nat)
    requires k <= |nodes|
    ensures Increasing(ChildrenBelow(nodes, p, k))
  {
    if k > 0 {
      ChildrenBelowIncreasing(nodes, p, k - 1);
      var prev := ChildrenBelow(nodes, p, k - 1);
      var ks := ChildrenBelow(nodes, p, k);
      assert ks == prev + (if nodes[k - 1].parent == Some(p) then [k - 1] else []);
      forall i, j | 0 <= i < j < |ks| ensures ks[i] < ks[j] {
        if j < |prev| {
          assert ks[i] == prev[i] && ks[j] == prev[j];
          assert prev[i] < prev[j];
        } else {
          assert ks[i] == prev[i] && ks[j] == k - 1;
          assert prev[i] < k - 1;
        }
      }
    }
  }

  /** Every row whose parent is p is among the children of p, and they come in increasing id order. */
  lemma ChildrenComplete(nodes: seq<Node>, p: nat, m: nat)
    requires m < |nodes| && nodes[m].parent == Some(p)
    ensures m in Children(nodes, p)
    ensures Increasing(Children(nodes, p))
  {
    ChildrenBelowComplete(nodes, p, |nodes|, m);
    ChildrenBelowIncreasing(nodes, p, |nodes|);
  }

  lemma {:induction false} ChildrenBelowSameParents(a: seq<Node>, b: seq<Node>, p: nat, k: nat)
    requires k <= |a| && k <= |b|
    requires forall m :: 0 <= m < k ==> a[m].parent == b[m].parent
    ensures ChildrenBelow(a, p, k) == ChildrenBelow(b, p, k)
  {
    if k > 0 {
      ChildrenBelowSameParents(a, b, p, k - 1);
    }
  }

  lemma ChildrenSameParents(a: seq<Node>, b: seq<Node>)
    requires |a| == |b|
    requires forall m :: 0 <= m < |a| ==> a[m].parent == b[m].parent
    ensures forall p :: Children(a, p) == Children(b, p)
  {
    forall p: nat ensures Children(a, p) == Children(b, p) {
      ChildrenBelowSameParents(a, b, p, |a|);
    }
  }

  lemma {:induction false} ChildrenBelowNone(nodes: seq<Node>, p: nat, k: nat)
    requires k <= |nodes|
    requires forall m :: 0 <= m < k ==> nodes[m].parent != Some(p)
    ensures ChildrenBelow(nodes, p, k) == []
  {
    if k > 0 {
      ChildrenBelowNone(nodes, p, k - 1);
    }
  }

  /** Appending a row that is not a child of p leaves the children of p alone. */
  lemma ChildrenAppendOther(a: seq<Node>, x: Node, p: nat)
    requires x.parent != Some(p)
    ensures Children(a + [x], p) == Children(a, p)
  {
    ChildrenBelowSameParents(a + [x], a, p, |a|);
  }

  /**
   * Four rows appended below the leaf d, the earlier rows keeping their
   * parents: d gets exactly those four children and nobody else's change.
   */
  lemma ChildrenAfterSplit(before: seq<Node>, after: seq<Node>, d: nat)
    requires |after| == |before| + 4
    requires forall m :: 0 <= m < |before| ==> after[m].parent == before[m].parent
    requires forall m :: |before| <= m < |after| ==> after[m].parent == Some(d)
    requires Children(before, d) == []
    ensures var k := |before|; Children(after, d) == [k, k + 1, k + 2, k + 3]
    ensures forall p :: p != d ==> Children(after, p) == Children(before, p)
  {
    forall p: nat ensures Children(after, p) == Children(before, p) + (if p == d then [|before|, |before| + 1, |before| + 2, |before| + 3] else []) {
      ChildrenAfterAppend(before, after, d, p);
    }
  }

  lemma ChildrenAfterAppend(before: seq<Node>, after: seq<Node>, d: nat, p: nat)
    requires |after| == |before| + 4
    requires forall m :: 0 <= m < |before| ==> after[m].parent == before[m].parent
    requires forall m :: |before| <= m < |after| ==> after[m].parent == Some(d)
    ensures var k := |before|;
      Children(after, p) == Children(before, p) + (if p == d then [k, k + 1, k + 2, k + 3] else [])
  {
    var k := |before|;
    ChildrenBelowSameParents(after, before, p, k);
    var c0 := ChildrenBelow(after, p, k);
    var c1 := ChildrenBelow(after, p, k + 1);
    var c2 := ChildrenBelow(after, p, k + 2);
    var c3 := ChildrenBelow(after, p, k + 3);
    var c4 := ChildrenBelow(after, p, k + 4);
    var extra := if p == d then [k, k + 1, k + 2, k + 3] else [];
    assert c1 == c0 + extra[..(if p == d then 1 else 0)];
    assert c2 == c1 + (if p == d then [k + 1] else []);
    assert c3 == c2 + (if p == d then [k + 2] else []);
    assert c4 == c3 + (if p == d then [k + 3] else []);
    assert c4 == c0 + extra;
  }

  // ---------------------------------------------------------------------
  // Links
  // ---------------------------------------------------------------------

  /** The items linked to node n, in link order (one entry per link row). */
  function LinkedItems(links: seq<Link>, n: nat): (its: seq<nat>)
  {
    if links == [] then []
    else
      var last := links[|links| - 1];
      LinkedItems(links[..|links| - 1], n) + (if last.node == n then [last.item] else [])
  }

  /** An item is among those linked to n exactly when the table holds that link. */
  lemma {:induction false} LinkedItemsMember(links: seq<Link>, n: nat, it: nat)
    ensures it in LinkedItems(links, n) <==> Link(n, it) in links
  {
    if links != [] {
      var last := links[|links| - 1];
      var front := links[..|links| - 1];
      assert links == front + [last];
      LinkedItemsMember(front, n, it);
    }
  }

  /** The node's item count as the link table sees it. */
  function CountLinks(links: seq<Link>, n: nat): nat {
    |LinkedItems(links, n)|
  }

  lemma {:induction false} LinkedItemsAppend(a: seq<Link>, b: seq<Link>, n: nat)
    ensures LinkedItems(a + b, n) == LinkedItems(a, n) + LinkedItems(b, n)
    decreases |b|
  {
    if b == [] {
      assert a + b == a;
    } else {
      var last := b[|b| - 1];
      var front := b[..|b| - 1];
      assert b == front + [last];
      assert a + b == (a + front) + [last];
      assert (a + b)[..|a + b| - 1] == a + front;
      var tail := if last.node == n then [last.item] else [];
      assert LinkedItems(a + b, n) == LinkedItems(a + front, n) + tail;
      assert LinkedItems(b, n) == LinkedItems(front, n) + tail;
      LinkedItemsAppend(a, front, n);
      assert LinkedItems(a + b, n) == LinkedItems(a, n) + (LinkedItems(front, n) + tail);
    }
  }

  lemma CountLinksAppend(a: seq<Link>, b: seq<Link>, n: nat)
    ensures CountLinks(a + b, n) == CountLinks(a, n) + CountLinks(b, n)
  {
    LinkedItemsAppend(a, b, n);
  }

  /** A link table none of whose rows names n links nothing to n. */
  lemma {:induction false} NoLinksTo(links: seq<Link>, n: nat)
    requires forall l :: l in links ==> l.node != n
    ensures LinkedItems(links, n) == []
  {
    if links != [] {
      var front := links[..|links| - 1];
      assert links == front + [links[|links| - 1]];
      NoLinksTo(front, n);
    }
  }

  /** The link table with every row of node n deleted. */
  function WithoutNode(links: seq<Link>, n: nat): (r: seq<Link>) {
    if links == [] then []
    else
      var last := links[|links| - 1];
      WithoutNode(links[..|links| - 1], n) + (if last.node == n then [] else [last])
  }

  /** A row survives the deletion exactly when it does not name n. */
  lemma {:induction false} WithoutNodeMember(links: seq<Link>, n: nat, l: Link)
    ensures l in WithoutNode(links, n) <==> l in links && l.node != n
  {
    if links != [] {
      var last := links[|links| - 1];
      var front := links[..|links| - 1];
      assert links == front + [last];
      WithoutNodeMember(front, n, l);
    }
  }


  /** Deleting n's rows leaves n nothing and every other node its own items, in order. */
  lemma {:induction false} WithoutNodeLinked(links: seq<Link>, n: nat, m: nat)
    ensures LinkedItems(WithoutNode(links, n), m) == if m == n then [] else LinkedItems(links, m)
  {
    if links != [] {
      var last := links[|links| - 1];
      var front := links[..|links| - 1];
      var tail := if last.node == n then [] else [last];
      WithoutNodeLinked(front, n, m);
      LinkedItemsAppend(WithoutNode(front, n), tail, m);
      assert tail == [] ==> WithoutNode(front, n) + tail == WithoutNode(front, n);
      assert tail != [] ==> LinkedItems(tail, m) == LinkedItems([], m) + (if last.node == m then [last.item] else []);
    }
  }

  /** The links one item gets in the new children k..k+3, one per quadrant. */
  function Fan(it: nat, quads: seq<Quad>, k: nat): (r: seq<Link>) {
    seq(|quads|, j requires 0 <= j < |quads| => Link(k + quads[j] - 1, it))
  }

  /**
   * The links a split creates: each former item, in order, linked into each
   * child k + q - 1 for q among its quadrants about the centre c.
   */
  function Redistribute(its: seq<nat>, items: seq<Item>, c: Point, k: nat): (r: seq<Link>) {
    if its == [] then []
    else
      var last := its[|its| - 1];
      Redistribute(its[..|its| - 1], items, c, k) + Fan(last, QuadsOf(items, last, c), k)
  }

  /** The quadrants about c of item it's box (none for an id outside the item table). */
  function QuadsOf(items: seq<Item>, it: nat, c: Point): seq<Quad> {
    if it < |items| then Quadrants(items[it].bbox, c) else []
  }

  /** An item's list of quadrants names each quadrant at most once. */
  lemma QuadsOfDistinct(items: seq<Item>, it: nat, c: Point)
    ensures var quads := QuadsOf(items, it, c);
      forall j, j' :: 0 <= j < j' < |quads| ==> quads[j] != quads[j']
  {
    if it < |items| {
      QuadrantsDistinct(items[it].bbox, c);
    }
  }

  /** Extending a prefix by one element. */
  lemma PrefixNext<T>(s: seq<T>, j: nat)
    requires j < |s|
    ensures s[..j + 1] == s[..j] + [s[j]]
  {
  }

  /** How many of the items its the classifier sends to quadrant q about c. */
  function QuadCount(its: seq<nat>, items: seq<Item>, c: Point, q: int): nat {
    if its == [] then 0
    else
      var last := its[|its| - 1];
      QuadCount(its[..|its| - 1], items, c, q) + (if q in QuadsOf(items, last, c) then 1 else 0)
  }

  lemma FanLinks(it: nat, quads: seq<Quad>, k: nat, l: Link)
    ensures l in Fan(it, quads, k) <==> l.item == it && k <= l.node && l.node - k + 1 in quads
  {
    var fan := Fan(it, quads, k);
    if l in fan {
      var j :| 0 <= j < |fan| && fan[j] == l;
      assert quads[j] == l.node - k + 1;
    }
    if l.item == it && k <= l.node && l.node - k + 1 in quads {
      var j :| 0 <= j < |quads| && quads[j] == l.node - k + 1;
      assert fan[j] == l;
    }
  }

  /**
   * Exactly which links a redistribution creates: item it is linked into
   * child k + q - 1 iff it was among the former items and q is one of its
   * quadrants.
   */
  lemma {:induction false} RedistributeLinks(its: seq<nat>, items: seq<Item>, c: Point, k: nat, l: Link)
    ensures l in Redistribute(its, items, c, k) <==>
      l.item in its && k <= l.node && l.node - k + 1 in QuadsOf(items, l.item, c)
  {
    if its != [] {
      var last := its[|its| - 1];
      var front := its[..|its| - 1];
      assert its == front + [last];
      assert forall x :: x in its <==> x in front || x == last;
      RedistributeLinks(front, items, c, k, l);
      FanLinks(last, QuadsOf(items, last, c), k, l);
      assert Redistribute(its, items, c, k) == Redistribute(front, items, c, k) + Fan(last, QuadsOf(items, last, c), k);
    }
  }

  /** One item's fan gives child n = k + q - 1 one link when q is among its (distinct) quadrants, else none. */
  lemma {:induction false} FanCount(it: nat, quads: seq<Quad>, k: nat, q: int, n: nat)
    requires n + 1 == k + q
    requires forall i, j :: 0 <= i < j < |quads| ==> quads[i] != quads[j]
    ensures CountLinks(Fan(it, quads, k), n) == if q in quads then 1 else 0
  {
    if quads != [] {
      var front := quads[..|quads| - 1];
      var last := quads[|quads| - 1];
      assert quads == front + [last];
      assert Fan(it, quads, k) == Fan(it, front, k) + [Link(k + last - 1, it)];
      FanCount(it, front, k, q, n);
      LinkedItemsAppend(Fan(it, front, k), [Link(k + last - 1, it)], n);
      assert LinkedItems([Link(k + last - 1, it)], n) == if last == q then [it] else [] by {
        assert [Link(k + last - 1, it)][..0] == [];
      }
      if last == q {
        forall j | 0 <= j < |front| ensures front[j] != q {
          assert quads[j] != quads[|quads| - 1];
        }
      }
    }
  }

  /** The number of links a redistribution puts into child n = k + q - 1 is the number of items sent to q. */
  lemma {:induction false} RedistributeCount(its: seq<nat>, items: seq<Item>, c: Point, k: nat, q: int, n: nat)
    requires n + 1 == k + q
    ensures CountLinks(Redistribute(its, items, c, k), n) == QuadCount(its, items, c, q)
  {
    if its == [] {
      assert Redistribute(its, items, c, k) == [];
    } else {
      var last := its[|its| - 1];
      var front := its[..|its| - 1];
      RedistributeCount(front, items, c, k, q, n);
      RedistributeStep(its, items, c, k, n);
      if last < |items| {
        QuadrantsDistinct(items[last].bbox, c);
      }
      FanCount(last, QuadsOf(items, last, c), k, q, n);
    }
  }

  /** One step of the count: the last item's fan adds to what the others put into child n. */
  lemma RedistributeStep(its: seq<nat>, items: seq<Item>, c: Point, k: nat, n: nat)
    requires its != []
    ensures var last := its[|its| - 1];
      CountLinks(Redistribute(its, items, c, k), n)
        == CountLinks(Redistribute(its[..|its| - 1], items, c, k), n)
         + CountLinks(Fan(last, QuadsOf(items, last, c), k), n)
  {
    var last := its[|its| - 1];
    CountLinksAppend(Redistribute(its[..|its| - 1], items, c, k), Fan(last, QuadsOf(items, last, c), k), n);
  }

  // ---------------------------------------------------------------------
  // The tree invariant
  // ---------------------------------------------------------------------

  /**
   * Row m is in place: a root has depth 0 and the index extent; any other
   * row has an earlier branch as parent and is one level deeper; a branch
   * lies above the depth ceiling.
   */
  ghost predicate NodeOk(nodes: seq<Node>, m: nat, extent: Box, maxDepth: int)
    requires m < |nodes|
  {
    var x := nodes[m];
    && (match x.parent
        case None => x.depth == 0 && x.extent == extent
        case Some(p) => p < m && !nodes[p].IsLeaf() && x.depth == nodes[p].depth + 1)
    && (!x.IsLeaf() ==> x.depth < maxDepth)
  }

  /**
   * A leaf has no children and counts its links; a branch has exactly four
   * children, which cut its extent at the centre in the order 1..4.
   */
  ghost predicate FamilyOk(nodes: seq<Node>, links: seq<Link>, p: nat)
    requires p < |nodes|
  {
    var ks := Children(nodes, p);
    if nodes[p].IsLeaf() then
      ks == [] && nodes[p].itemCount.value == CountLinks(links, p)
    else
      |ks| == 4 && forall q :: 1 <= q <= 4 ==> nodes[ks[q - 1]].extent == ChildExtent(nodes[p].extent, q)
  }

  /** A link names a leaf and an existing item: branches hold no links. */
  ghost predicate LinkOk(t: Tables, l: Link) {
    l.node < |t.nodes| && t.nodes[l.node].IsLeaf() && l.item < |t.items|
  }

  ghost predicate WellFormed(t: Tables, extent: Box, maxDepth: int) {
    && (forall m :: 0 <= m < |t.nodes| ==> NodeOk(t.nodes, m, extent, maxDepth))
    && (forall p :: 0 <= p < |t.nodes| ==> FamilyOk(t.nodes, t.links, p))
    && (forall l :: l in t.links ==> LinkOk(t, l))
  }

  /** Depths run from 0 at a root to at most the ceiling (or 0 when it is negative). */
  lemma {:induction false} DepthBounded(t: Tables, extent: Box, maxDepth: int, m: nat)
    requires WellFormed(t, extent, maxDepth) && m < |t.nodes|
    ensures 0 <= t.nodes[m].depth
    ensures t.nodes[m].depth <= maxDepth || (t.nodes[m].depth == 0 && t.nodes[m].parent.None?)
  {
    assert NodeOk(t.nodes, m, extent, maxDepth);
    match t.nodes[m].parent
    case None =>
    case Some(p) =>
      assert NodeOk(t.nodes, p, extent, maxDepth);
      DepthBounded(t, extent, maxDepth, p);
  }

  /** Every extent has positive area when the index extent has. */
  lemma {:induction false} ExtentSolid(t: Tables, extent: Box, maxDepth: int, m: nat)
    requires WellFormed(t, extent, maxDepth) && Solid(extent) && m < |t.nodes|
    ensures Solid(t.nodes[m].extent)
  {
    assert NodeOk(t.nodes, m, extent, maxDepth);
    match t.nodes[m].parent
    case None =>
    case Some(p) =>
      ExtentSolid(t, extent, maxDepth, p);
      assert FamilyOk(t.nodes, t.links, p);
      var ks := Children(t.nodes, p);
      ChildrenComplete(t.nodes, p, m);
      var j :| 0 <= j < 4 && ks[j] == m;
      assert t.nodes[m].extent == ChildExtent(t.nodes[p].extent, j + 1);
  }

  /** Rows whose parent is p come after p. */
  lemma ChildrenLater(t: Tables, extent: Box, maxDepth: int, p: nat)
    requires WellFormed(t, extent, maxDepth)
    ensures forall j :: 0 <= j < |Children(t.nodes, p)| ==> p < Children(t.nodes, p)[j]
  {
    var ks := Children(t.nodes, p);
    forall j | 0 <= j < |ks| ensures p < ks[j] {
      assert NodeOk(t.nodes, ks[j], extent, maxDepth);
    }
  }

  /**
   * Under the invariant, a node is a leaf exactly when it has no children
   * (the rule is_leaf once used), and a branch has four.
   */
  lemma LeafIffChildless(t: Tables, extent: Box, maxDepth: int, p: nat)
    requires WellFormed(t, extent, maxDepth) && p < |t.nodes|
    ensures t.nodes[p].IsLeaf() <==> Children(t.nodes, p) == []
    ensures !t.nodes[p].IsLeaf() ==> |Children(t.nodes, p)| == 4
  {
    assert FamilyOk(t.nodes, t.links, p);
  }

  /**
   * When the index extent has positive area, a branch's children in id
   * order are strictly increasing in (ymin, xmin): the order subnodes()
   * sorts by is the order of creation, so child q - 1 of that list is the
   * child for quadrant q.
   */
  lemma ChildrenSorted(t: Tables, extent: Box, maxDepth: int, p: nat, j1: nat, j2: nat)
    requires WellFormed(t, extent, maxDepth) && Solid(extent) && p < |t.nodes| && !t.nodes[p].IsLeaf()
    requires j1 < j2 < 4
    ensures var ks := Children(t.nodes, p);
      |ks| == 4 && CornerBefore(t.nodes[ks[j1]].extent, t.nodes[ks[j2]].extent)
  {
    assert FamilyOk(t.nodes, t.links, p);
    ExtentSolid(t, extent, maxDepth, p);
    ChildrenInCornerOrder(t.nodes[p].extent, j1 + 1, j2 + 1);
  }

  /** A branch holds no links. */
  lemma BranchHoldsNoLinks(t: Tables, extent: Box, maxDepth: int, n: nat)
    requires WellFormed(t, extent, maxDepth) && n < |t.nodes| && !t.nodes[n].IsLeaf()
    ensures LinkedItems(t.links, n) == []
  {
    forall l | l in t.links ensures l.node != n {
      assert LinkOk(t, l);
    }
    NoLinksTo(t.links, n);
  }

  // ---------------------------------------------------------------------
  // Placement of items
  // ---------------------------------------------------------------------

  /**
   * Item i is placed at node n: at a leaf it is linked there; at a branch it
   * is placed at the child of every quadrant the classifier names for its
   * bbox about the branch's centre.
   */
  ghost predicate Covered(t: Tables, n: nat, i: nat)
    decreases |t.nodes| - n
  {
    && n < |t.nodes| && i < |t.items|
    && if t.nodes[n].IsLeaf() then Link(n, i) in t.links
       else
         var ks := Children(t.nodes, n);
         && |ks| == 4
         && (forall j :: 0 <= j < 4 ==> n < ks[j])
         && forall q :: q in Quadrants(t.items[i].bbox, Center(t.nodes[n].extent)) ==> Covered(t, ks[q - 1], i)
  }

  /** Every placement in t still holds in t'. */
  ghost predicate CoverageKept(t: Tables, t': Tables) {
    forall n, i :: Covered(t, n, i) ==> Covered(t', n, i)
  }

  /**
   * t' has the same tree as t (possibly with rows appended), the same items
   * (possibly with rows appended) and at least its links.
   */
  ghost predicate SameTreeMoreLinks(t: Tables, t': Tables) {
    && |t.nodes| <= |t'.nodes| && |t.items| <= |t'.items|
    && (forall j :: 0 <= j < |t.items| ==> t'.items[j] == t.items[j])
    && (forall p :: 0 <= p < |t.nodes| ==>
          t'.nodes[p].extent == t.nodes[p].extent && t'.nodes[p].IsLeaf() == t.nodes[p].IsLeaf()
          && Children(t'.nodes, p) == Children(t.nodes, p))
    && (forall l :: l in t.links ==> l in t'.links)
  }

  lemma {:induction false} CoveredMono(t: Tables, t': Tables, n: nat, i: nat)
    requires SameTreeMoreLinks(t, t') && Covered(t, n, i)
    ensures Covered(t', n, i)
    decreases |t.nodes| - n
  {
    if !t.nodes[n].IsLeaf() {
      var ks := Children(t.nodes, n);
      forall q | q in Quadrants(t.items[i].bbox, Center(t.nodes[n].extent))
        ensures Covered(t', ks[q - 1], i)
      {
        CoveredMono(t, t', ks[q - 1], i);
      }
    }
  }

  /** Item i is placed at the child ks[q - 1] of every quadrant q in qs. */
  ghost predicate CoveredUnder(t: Tables, ks: seq<nat>, qs: seq<Quad>, i: nat) {
    |ks| == 4 && forall q :: q in qs ==> Covered(t, ks[q - 1], i)
  }

  /** Placements at the children of qs are kept, and one more quadrant q is placed. */
  lemma CoveredUnderNext(t: Tables, t': Tables, ks: seq<nat>, qs: seq<Quad>, q: Quad, i: nat)
    requires CoveredUnder(t, ks, qs, i) && CoverageKept(t, t') && Covered(t', ks[q - 1], i)
    ensures CoveredUnder(t', ks, qs + [q], i)
  {
    forall p | p in qs + [q] ensures Covered(t', ks[p - 1], i) {
      if p != q {
        assert Covered(t, ks[p - 1], i);
      }
    }
  }

  /**
   * One subnode step of insert at the branch n: the insertion into the
   * child of quadrant qs[e] grew the tree from `before` to `after`, kept its
   * placements and placed i at that child.
   */
  lemma SubnodeStep(t0: Tables, before: Tables, after: Tables, n: nat, ks: seq<nat>, qs: seq<Quad>, e: nat, i: nat)
    requires n < |t0.nodes| && e < |qs|
    requires Grows(t0.nodes, before.nodes) && CoverageKept(t0, before)
    requires before.nodes[n] == t0.nodes[n] && !t0.nodes[n].IsLeaf() && Children(before.nodes, n) == ks
    requires CoveredUnder(before, ks, qs[..e], i)
    requires Grows(before.nodes, after.nodes) && CoverageKept(before, after) && Covered(after, ks[qs[e] - 1], i)
    ensures Grows(t0.nodes, after.nodes) && CoverageKept(t0, after)
    ensures after.nodes[n] == t0.nodes[n] && Children(after.nodes, n) == ks
    ensures CoveredUnder(after, ks, qs[..e + 1], i)
  {
    GrowsTrans(t0.nodes, before.nodes, after.nodes);
    CoverageTrans(t0, before, after);
    CoveredUnderNext(before, after, ks, qs[..e], qs[e], i);
    assert Persists(before.nodes, after.nodes, n);
    PrefixNext(qs, e);
  }

  // ---------------------------------------------------------------------
  // Subtrees, and what an insertion leaves alone
  // ---------------------------------------------------------------------

  /** m lies in the subtree of a: m is a, or m's parent lies in it. */
  ghost predicate Below(nodes: seq<Node>, m: nat, a: nat)
    decreases m
  {
    || m == a
    || (m < |nodes| && nodes[m].parent.Some? && nodes[m].parent.value < m && Below(nodes, nodes[m].parent.value, a))
  }

  /** Row m and the items linked to it are the same in t' as in t. */
  ghost predicate Kept(t: Tables, t': Tables, m: nat) {
    m < |t.nodes| && m < |t'.nodes| && t'.nodes[m] == t.nodes[m] && LinkedItems(t'.links, m) == LinkedItems(t.links, m)
  }

  /** Every row of t other than n is kept in t'. */
  ghost predicate KeptElsewhere(t: Tables, t': Tables, n: nat) {
    forall m :: 0 <= m < |t.nodes| && m != n ==> Kept(t, t', m)
  }

  /** Every row of t outside the subtree of n is kept in t'. */
  ghost predicate KeptBeyond(t: Tables, t': Tables, n: nat) {
    forall m :: 0 <= m < |t.nodes| && !Below(t.nodes, m, n) ==> Kept(t, t', m)
  }

  /** m lies outside the subtrees of the children ks[q - 1] of the quadrants qs. */
  ghost predicate Outside(nodes: seq<Node>, m: nat, ks: seq<nat>, qs: seq<Quad>) {
    |ks| == 4 && forall q :: q in qs ==> !Below(nodes, m, ks[q - 1])
  }

  /** Every row of t outside the subtrees of the children of qs is kept in t'. */
  ghost predicate KeptOutside(t: Tables, t': Tables, ks: seq<nat>, qs: seq<Quad>) {
    forall m :: 0 <= m < |t.nodes| && Outside(t.nodes, m, ks, qs) ==> Kept(t, t', m)
  }

  /** Subtrees of rows that existed before the tree grew are the same. */
  lemma {:induction false} BelowGrows(a: seq<Node>, b: seq<Node>, m: nat, c: nat)
    requires Grows(a, b) && m < |a| && Below(b, m, c)
    ensures Below(a, m, c)
    decreases m
  {
    if m != c {
      assert Persists(a, b, m);
      BelowGrows(a, b, b[m].parent.value, c);
    }
  }

  /** The subtree of a child of n lies in the subtree of n. */
  lemma {:induction false} BelowChild(nodes: seq<Node>, m: nat, c: nat, n: nat)
    requires c < |nodes| && nodes[c].parent == Some(n) && n < c && Below(nodes, m, c)
    ensures Below(nodes, m, n)
    decreases m
  {
    if m != c {
      BelowChild(nodes, nodes[m].parent.value, c, n);
    }
  }

  /** A row outside the subtree of the branch n is outside the subtree of each of its children. */
  lemma NotBelowOutside(t: Tables, extent: Box, maxDepth: int, n: nat, m: nat, qs: seq<Quad>)
    requires WellFormed(t, extent, maxDepth) && n < |t.nodes| && !t.nodes[n].IsLeaf() && !Below(t.nodes, m, n)
    ensures Outside(t.nodes, m, Children(t.nodes, n), qs)
  {
    var ks := Children(t.nodes, n);
    LeafIffChildless(t, extent, maxDepth, n);
    ChildrenLater(t, extent, maxDepth, n);
    forall q | q in qs ensures !Below(t.nodes, m, ks[q - 1]) {
      if Below(t.nodes, m, ks[q - 1]) {
        BelowChild(t.nodes, m, ks[q - 1], n);
      }
    }
  }

  /** Keeping everything outside the subtrees of the children of a branch keeps everything outside its subtree. */
  lemma BeyondFromOutside(t: Tables, t': Tables, extent: Box, maxDepth: int, n: nat, qs: seq<Quad>)
    requires WellFormed(t, extent, maxDepth) && n < |t.nodes| && !t.nodes[n].IsLeaf()
    requires KeptOutside(t, t', Children(t.nodes, n), qs)
    ensures KeptBeyond(t, t', n)
  {
    forall m | 0 <= m < |t.nodes| && !Below(t.nodes, m, n) ensures Kept(t, t', m) {
      NotBelowOutside(t, extent, maxDepth, n, m, qs);
    }
  }

  /** A leaf's own row aside, keeping every other row keeps everything outside its subtree. */
  lemma BeyondFromElsewhere(t: Tables, t': Tables, n: nat)
    requires KeptElsewhere(t, t', n)
    ensures KeptBeyond(t, t', n)
  {
    forall m | 0 <= m < |t.nodes| && !Below(t.nodes, m, n) ensures Kept(t, t', m) {
      assert m != n;
    }
  }

  /**
   * One subnode step, for the rows left alone: the insertion into the child
   * of qs[e] kept every row outside that child's subtree.
   */
  lemma KeptStep(t0: Tables, before: Tables, after: Tables, ks: seq<nat>, qs: seq<Quad>, e: nat)
    requires e < |qs| && |ks| == 4 && Grows(t0.nodes, before.nodes)
    requires KeptOutside(t0, before, ks, qs[..e]) && KeptBeyond(before, after, ks[qs[e] - 1])
    ensures KeptOutside(t0, after, ks, qs[..e + 1])
  {
    PrefixNext(qs, e);
    forall m | 0 <= m < |t0.nodes| && Outside(t0.nodes, m, ks, qs[..e + 1]) ensures Kept(t0, after, m) {
      forall q | q in qs[..e] ensures !Below(t0.nodes, m, ks[q - 1]) {
        assert q in qs[..e + 1];
      }
      var c := ks[qs[e] - 1];
      assert qs[e] in qs[..e + 1];
      if Below(before.nodes, m, c) {
        BelowGrows(t0.nodes, before.nodes, m, c);
      }
      assert Kept(t0, before, m) && Kept(before, after, m);
    }
  }

  /** Rows that exist in a keep parent, depth and extent; a branch stays a branch with the same children. */
  ghost predicate Persists(a: seq<Node>, b: seq<Node>, m: nat)
    requires m < |a| <= |b|
  {
    && b[m].parent == a[m].parent && b[m].depth == a[m].depth && b[m].extent == a[m].extent
    && (!a[m].IsLeaf() ==> !b[m].IsLeaf() && Children(b, m) == Children(a, m))
  }

  /** The node table only grows: no row is removed and no branch turns back into a leaf. */
  ghost predicate Grows(a: seq<Node>, b: seq<Node>) {
    |a| <= |b| && forall m :: 0 <= m < |a| ==> Persists(a, b, m)
  }

  /** Grows composes. */
  lemma GrowsTrans(a: seq<Node>, b: seq<Node>, c: seq<Node>)
    requires Grows(a, b) && Grows(b, c)
    ensures Grows(a, c)
  {
    forall m | 0 <= m < |a| ensures Persists(a, c, m) {
      assert Persists(a, b, m) && Persists(b, c, m);
    }
  }

  /** A root stays a root as the tree grows. */
  lemma GrowsKeepsRoot(a: seq<Node>, b: seq<Node>, r: nat)
    requires Grows(a, b) && IsRoot(a, r)
    ensures IsRoot(b, r)
  {
    assert Persists(a, b, r);
  }

  /** Placements kept twice are kept. */
  lemma CoverageTrans(a: Tables, b: Tables, c: Tables)
    requires CoverageKept(a, b) && CoverageKept(b, c)
    ensures CoverageKept(a, c)
  {
    forall n, i | Covered(a, n, i) ensures Covered(c, n, i) {
      assert Covered(b, n, i);
    }
  }

  /** The row create_root appends: a parentless empty leaf at depth 0 covering the index extent. */
  function RootRow(extent: Box): Node {
    Node(None, 0, Some(0), extent)
  }

  /** Appending a fresh root keeps the tree invariant and every placement. */
  lemma NewRootKeeps(t: Tables, extent: Box, maxDepth: int)
    requires WellFormed(t, extent, maxDepth)
    ensures var t' := t.(nodes := t.nodes + [RootRow(extent)]);
      && WellFormed(t', extent, maxDepth) && Grows(t.nodes, t'.nodes) && CoverageKept(t, t')
      && IsRoot(t'.nodes, |t.nodes|)
  {
    var t' := t.(nodes := t.nodes + [RootRow(extent)]);
    NewRootChildren(t, extent, maxDepth, |t.nodes|);
    NewRootNodesOk(t, t', extent, maxDepth);
    NewRootFamiliesOk(t, t', extent, maxDepth, |t.nodes|);
    forall l | l in t'.links ensures LinkOk(t', l) {
      assert LinkOk(t, l);
    }
    forall n, i | Covered(t, n, i) ensures Covered(t', n, i) {
      CoveredMono(t, t', n, i);
    }
  }

  lemma NewRootChildren(t: Tables, extent: Box, maxDepth: int, k: nat)
    requires WellFormed(t, extent, maxDepth) && k == |t.nodes|
    ensures forall p: nat :: Children(t.nodes + [RootRow(extent)], p) == Children(t.nodes, p)
    ensures Children(t.nodes, k) == [] && LinkedItems(t.links, k) == []
  {
    forall p: nat ensures Children(t.nodes + [RootRow(extent)], p) == Children(t.nodes, p) {
      ChildrenAppendOther(t.nodes, RootRow(extent), p);
    }
    forall l | l in t.links ensures l.node != k {
      assert LinkOk(t, l);
    }
    NoLinksTo(t.links, k);
    forall m | 0 <= m < k ensures t.nodes[m].parent != Some(k) {
      assert NodeOk(t.nodes, m, extent, maxDepth);
    }
    ChildrenBelowNone(t.nodes, k, k);
  }

  lemma NewRootNodesOk(t: Tables, t': Tables, extent: Box, maxDepth: int)
    requires WellFormed(t, extent, maxDepth) && t' == t.(nodes := t.nodes + [RootRow(extent)])
    ensures forall m :: 0 <= m < |t'.nodes| ==> NodeOk(t'.nodes, m, extent, maxDepth)
  {
    forall m | 0 <= m < |t'.nodes| ensures NodeOk(t'.nodes, m, extent, maxDepth) {
      if m < |t.nodes| {
        assert NodeOk(t.nodes, m, extent, maxDepth);
      }
    }
  }

  lemma NewRootFamiliesOk(t: Tables, t': Tables, extent: Box, maxDepth: int, k: nat)
    requires WellFormed(t, extent, maxDepth) && t' == t.(nodes := t.nodes + [RootRow(extent)]) && k == |t.nodes|
    requires forall p: nat :: Children(t'.nodes, p) == Children(t.nodes, p)
    requires Children(t.nodes, k) == [] && LinkedItems(t.links, k) == []
    ensures forall p :: 0 <= p < |t'.nodes| ==> FamilyOk(t'.nodes, t'.links, p)
  {
    forall p | 0 <= p < |t'.nodes| ensures FamilyOk(t'.nodes, t'.links, p) {
      if p < k {
        assert FamilyOk(t.nodes, t.links, p);
      }
    }
  }

  /** Saving a new item row keeps the tree invariant and every placement. */
  lemma NewItemKeeps(t: Tables, extent: Box, maxDepth: int, item: Item)
    requires WellFormed(t, extent, maxDepth)
    ensures var t' := t.(items := t.items + [item]);
      WellFormed(t', extent, maxDepth) && CoverageKept(t, t')
  {
    var t' := t.(items := t.items + [item]);
    forall m | 0 <= m < |t'.nodes| ensures NodeOk(t'.nodes, m, extent, maxDepth) {
      assert NodeOk(t.nodes, m, extent, maxDepth);
    }
    forall p | 0 <= p < |t'.nodes| ensures FamilyOk(t'.nodes, t'.links, p) {
      assert FamilyOk(t.nodes, t.links, p);
    }
    forall l | l in t'.links ensures LinkOk(t', l) {
      assert LinkOk(t, l);
    }
    forall n, i | Covered(t, n, i) ensures Covered(t', n, i) {
      CoveredMono(t, t', n, i);
    }
  }

  /** Every item row i is placed under the root home[i]. */
  ghost predicate Homed(t: Tables, home: seq<nat>) {
    && |home| == |t.items|
    && forall i :: 0 <= i < |t.items| ==> IsRoot(t.nodes, home[i]) && Covered(t, home[i], i)
  }

  /** Homes survive a change that keeps the items, grows the tree and keeps placements. */
  lemma HomedKept(t: Tables, t': Tables, home: seq<nat>)
    requires Homed(t, home) && t'.items == t.items
    requires Grows(t.nodes, t'.nodes) && CoverageKept(t, t')
    ensures Homed(t', home)
  {
    forall i | 0 <= i < |t'.items| ensures IsRoot(t'.nodes, home[i]) && Covered(t', home[i], i) {
      GrowsKeepsRoot(t.nodes, t'.nodes, home[i]);
    }
  }

  /**
   * One more item row, placed under the root r: t' has t's items and one
   * more, its tree grew from t's and every placement of t holds in t'.
   */
  lemma HomedAppend(t: Tables, t': Tables, home: seq<nat>, r: nat)
    requires Homed(t, home) && |t'.items| == |t.items| + 1 && t'.items[..|t.items|] == t.items
    requires Grows(t.nodes, t'.nodes) && CoverageKept(t, t')
    requires IsRoot(t'.nodes, r) && Covered(t', r, |t.items|)
    ensures Homed(t', home + [r])
  {
    var h := home + [r];
    forall i | 0 <= i < |t'.items| ensures IsRoot(t'.nodes, h[i]) && Covered(t', h[i], i) {
      if i < |t.items| {
        assert h[i] == home[i];
        GrowsKeepsRoot(t.nodes, t'.nodes, home[i]);
      }
    }
  }

  /**
   * One item step of build: the item row was appended to `before` (giving
   * `saved`, placements kept) and inserted under the root r (giving `after`);
   * every item keeps its root.
   */
  lemma ItemStep(before: Tables, saved: Tables, after: Tables, home: seq<nat>, r: nat)
    requires Homed(before, home)
    requires saved.nodes == before.nodes && |saved.items| == |before.items| + 1
    requires saved.items[..|before.items|] == before.items && CoverageKept(before, saved)
    requires Grows(saved.nodes, after.nodes) && CoverageKept(saved, after) && after.items == saved.items
    requires IsRoot(after.nodes, r) && Covered(after, r, |before.items|)
    ensures Grows(before.nodes, after.nodes) && CoverageKept(before, after) && Homed(after, home + [r])
  {
    CoverageTrans(before, saved, after);
    HomedAppend(before, after, home, r);
  }

  // ---------------------------------------------------------------------
  // Adding one link (add_item)
  // ---------------------------------------------------------------------

  /** add_item: a new link row, and the count goes up by one (a branch's None becomes 1). */
  function AddItemTables(t: Tables, n: nat, i: nat): Tables
    requires n < |t.nodes|
  {
    var x := t.nodes[n];
    var count := match x.itemCount case None => 1 case Some(c) => c + 1;
    t.(nodes := t.nodes[n := x.(itemCount := Some(count))], links := t.links + [Link(n, i)])
  }

  /**
   * On a leaf, add_item adds exactly the link (n, i), raises the count by
   * one and changes no other node's links.
   */
  lemma AddItemLinks(t: Tables, n: nat, i: nat)
    requires n < |t.nodes| && t.nodes[n].IsLeaf()
    ensures var t' := AddItemTables(t, n, i);
      && LinkedItems(t'.links, n) == LinkedItems(t.links, n) + [i]
      && CountLinks(t'.links, n) == CountLinks(t.links, n) + 1
      && t'.nodes[n].itemCount == Some(t.nodes[n].itemCount.value + 1)
      && (forall m :: m != n ==> LinkedItems(t'.links, m) == LinkedItems(t.links, m))
  {
    var t' := AddItemTables(t, n, i);
    forall m: nat ensures LinkedItems(t'.links, m) == LinkedItems(t.links, m) + (if m == n then [i] else []) {
      LinkedItemsAppend(t.links, [Link(n, i)], m);
    }
  }

  /** add_item on a leaf keeps the tree invariant. */
  lemma AddItemKeepsWellFormed(t: Tables, extent: Box, maxDepth: int, n: nat, i: nat)
    requires WellFormed(t, extent, maxDepth) && n < |t.nodes| && t.nodes[n].IsLeaf() && i < |t.items|
    ensures WellFormed(AddItemTables(t, n, i), extent, maxDepth)
  {
    var t' := AddItemTables(t, n, i);
    forall m | 0 <= m < |t'.nodes| ensures NodeOk(t'.nodes, m, extent, maxDepth) {
      assert NodeOk(t.nodes, m, extent, maxDepth);
    }
    forall p | 0 <= p < |t'.nodes| ensures FamilyOk(t'.nodes, t'.links, p) {
      AddItemFamily(t, n, i, p);
    }
    forall l | l in t'.links ensures LinkOk(t', l) {
      if l in t.links {
        assert LinkOk(t, l);
      }
    }
  }

  /** add_item on a leaf keeps each node's family in order, counts included. */
  lemma AddItemFamily(t: Tables, n: nat, i: nat, p: nat)
    requires n < |t.nodes| && t.nodes[n].IsLeaf() && p < |t.nodes| && FamilyOk(t.nodes, t.links, p)
    ensures var t' := AddItemTables(t, n, i);
      FamilyOk(t'.nodes, t'.links, p)
  {
    var t' := AddItemTables(t, n, i);
    ChildrenSameParents(t.nodes, t'.nodes);
    var ks := Children(t.nodes, p);
    assert Children(t'.nodes, p) == ks;
    if p == n {
      AddItemLinks(t, n, i);
    } else if t.nodes[p].IsLeaf() {
      AddItemLinks(t, n, i);
      assert LinkedItems(t'.links, p) == LinkedItems(t.links, p);
    } else {
      forall q | 1 <= q <= 4 ensures t'.nodes[ks[q - 1]].extent == ChildExtent(t'.nodes[p].extent, q) {
        assert t.nodes[ks[q - 1]].extent == ChildExtent(t.nodes[p].extent, q);
      }
    }
  }

  /**
   * add_item on a leaf keeps the shape of the tree and every placement, and
   * places the item at the leaf.
   */
  lemma AddItemKeepsCoverage(t: Tables, n: nat, i: nat)
    requires n < |t.nodes| && t.nodes[n].IsLeaf() && i < |t.items|
    ensures var t' := AddItemTables(t, n, i);
      SameTreeMoreLinks(t, t') && Grows(t.nodes, t'.nodes) && CoverageKept(t, t') && Covered(t', n, i)
  {
    var t' := AddItemTables(t, n, i);
    ChildrenSameParents(t.nodes, t'.nodes);
    forall n0, i0 | Covered(t, n0, i0) ensures Covered(t', n0, i0) {
      CoveredMono(t, t', n0, i0);
    }
  }

  // ---------------------------------------------------------------------
  // Splitting a leaf (split)
  // ---------------------------------------------------------------------

  /** A fresh child of d in quadrant q, one level deeper, holding `count` items. */
  function NewChild(d: nat, parent: Node, q: int, count: int): (c: Node)
    requires 1 <= q <= 4
  {
    Node(Some(d), parent.depth + 1, Some(count), ChildExtent(parent.extent, q))
  }

  /** The items on node d's links, as split reads them before deleting the links. */
  function Former(t: Tables, d: nat): seq<nat> {
    LinkedItems(t.links, d)
  }


  /** The links split creates in the children appended at the end of the node table. */
  function Moved(t: Tables, d: nat): seq<Link>
    requires d < |t.nodes|
  {
    Redistribute(Former(t, d), t.items, Center(t.nodes[d].extent), |t.nodes|)
  }

  /**
   * The tables after split(d): four children appended (ids k..k+3 for the
   * quadrants 1..4), each counting the links it received; d marked a
   * branch; d's links deleted; every former item linked into the children
   * of its quadrants.
   */
  function SplitTables(t: Tables, d: nat): Tables
    requires d < |t.nodes|
  {
    var x := t.nodes[d];
    var k := |t.nodes|;
    var moved := Moved(t, d);
    var c := Center(x.extent);
    var its := Former(t, d);
    var kids := [NewChild(d, x, 1, QuadCount(its, t.items, c, 1)), NewChild(d, x, 2, QuadCount(its, t.items, c, 2)),
                 NewChild(d, x, 3, QuadCount(its, t.items, c, 3)), NewChild(d, x, 4, QuadCount(its, t.items, c, 4))];
    Tables(t.nodes[d := x.(itemCount := None)] + kids, t.items, WithoutNode(t.links, d) + moved)
  }

  /** Every link names an existing item. */
  ghost predicate ItemsExist(t: Tables) {
    forall l :: l in t.links ==> l.item < |t.items|
  }

  /** Every link names an existing node and an existing item. */
  ghost predicate LinksExist(t: Tables) {
    forall l :: l in t.links ==> l.node < |t.nodes| && l.item < |t.items|
  }

  lemma WellFormedLinksExist(t: Tables, extent: Box, maxDepth: int)
    requires WellFormed(t, extent, maxDepth)
    ensures LinksExist(t) && ItemsExist(t)
  {
    forall l | l in t.links ensures l.node < |t.nodes| && l.item < |t.items| {
      assert LinkOk(t, l);
    }
  }
}
