/**
 * The intersection query. The recursive CTE starts from every parentless
 * node that passes the strict bounds check and descends into every child
 * that passes it too; the visited nodes' links then give item rows, of
 * which those passing the same check are returned. The CTE's rule is the
 * predicate Visited; Traversal computes it top-down; Join is the final
 * select. There is no DISTINCT, so an item comes back once per link.
 */
module Query {
  import opened Geometry
  import opened Store

  /**
   * The CTE's rule: node m is in the traversal when it passes the bounds
   * check and it is a root or its parent is in the traversal. (Rows are
   * stored parent first, so a parent's id is below its child's.)
   */
  predicate Visited(nodes: seq<Node>, q: Box, m: nat)
    decreases m
  {
    && m < |nodes| && Overlaps(q, nodes[m].extent)
    && match nodes[m].parent
       case None => true
       case Some(p) => p < m && Visited(nodes, q, p)
  }

  /** Top-down from n: n itself, then the walks of its children, when n passes the check. */
  function Walk(nodes: seq<Node>, q: Box, n: nat): seq<nat>
    decreases |nodes| - n, 1
  {
    if n < |nodes| && Overlaps(q, nodes[n].extent) then [n] + WalkChildren(nodes, q, n, Children(nodes, n))
    else []
  }

  /** The walks of the children ks of n, in order. */
  function WalkChildren(nodes: seq<Node>, q: Box, n: nat, ks: seq<nat>): seq<nat>
    decreases |nodes| - n, 0, |ks|
  {
    if ks == [] then []
    else (if n < ks[0] < |nodes| then Walk(nodes, q, ks[0]) else []) + WalkChildren(nodes, q, n, ks[1..])
  }

  /** The concatenated walks from the roots among the first k rows. */
  function OverRoots(nodes: seq<Node>, k: nat, walk: nat -> seq<nat>): seq<nat> {
    if k == 0 then []
    else OverRoots(nodes, k - 1, walk) + (if IsRoot(nodes, k - 1) then walk(k - 1) else [])
  }

  /** The node ids the CTE produces: the walks from every root. */
  function Traversal(nodes: seq<Node>, q: Box): seq<nat> {
    OverRoots(nodes, |nodes|, r => Walk(nodes, q, r))
  }

  /** A link that the final select keeps: its node was visited and its item passes the check. */
  predicate Hit(items: seq<Item>, visited: seq<nat>, q: Box, l: Link) {
    l.node in visited && l.item < |items| && Overlaps(q, items[l.item].bbox)
  }

  /** The join of links, visited nodes and items, one result per kept link row, in link order. */
  function Join(links: seq<Link>, items: seq<Item>, visited: seq<nat>, q: Box): seq<nat> {
    if links == [] then []
    else
      var l := links[|links| - 1];
      Join(links[..|links| - 1], items, visited, q) + (if Hit(items, visited, q, l) then [l.item] else [])
  }

  /** intersect(bbox): the ids of the item rows the query returns. */
  function Intersect(t: Tables, q: Box): seq<nat> {
    Join(t.links, t.items, Traversal(t.nodes, q), q)
  }

  // ---------------------------------------------------------------------
  // The walk computes the CTE
  // ---------------------------------------------------------------------

  lemma {:induction false} WalkChildrenMember(nodes: seq<Node>, q: Box, n: nat, ks: seq<nat>, m: nat)
    ensures m in WalkChildren(nodes, q, n, ks) <==>
      exists j :: 0 <= j < |ks| && n < ks[j] < |nodes| && m in Walk(nodes, q, ks[j])
    decreases |ks|
  {
    if ks != [] {
      WalkChildrenMember(nodes, q, n, ks[1..], m);
      if m in WalkChildren(nodes, q, n, ks[1..]) {
        var j :| 0 <= j < |ks[1..]| && n < ks[1..][j] < |nodes| && m in Walk(nodes, q, ks[1..][j]);
        assert ks[j + 1] == ks[1..][j];
      }
      if exists j :: 0 <= j < |ks| && n < ks[j] < |nodes| && m in Walk(nodes, q, ks[j]) {
        var j :| 0 <= j < |ks| && n < ks[j] < |nodes| && m in Walk(nodes, q, ks[j]);
        if j > 0 {
          assert ks[1..][j - 1] == ks[j];
        }
      }
    }
  }

  lemma {:induction false} OverRootsMember(nodes: seq<Node>, k: nat, walk: nat -> seq<nat>, m: nat)
    ensures m in OverRoots(nodes, k, walk) <==> exists r: nat :: r < k && IsRoot(nodes, r) && m in walk(r)
  {
    if k > 0 {
      OverRootsMember(nodes, k - 1, walk, m);
      if exists r: nat :: r < k && IsRoot(nodes, r) && m in walk(r) {
        var r: nat :| r < k && IsRoot(nodes, r) && m in walk(r);
        if r < k - 1 {
          assert m in OverRoots(nodes, k - 1, walk);
        }
      }
    }
  }

  /** Node m is in the traversal exactly when some root's walk reaches it. */
  lemma TraversalMember(nodes: seq<Node>, q: Box, m: nat)
    ensures m in Traversal(nodes, q) <==> exists r: nat :: r < |nodes| && IsRoot(nodes, r) && m in Walk(nodes, q, r)
  {
    var walk := r => Walk(nodes, q, r);
    OverRootsMember(nodes, |nodes|, walk, m);
    assert forall r: nat :: walk(r) == Walk(nodes, q, r);
  }

  /** Everything a walk from n reaches is visited, when n's parent is. */
  lemma {:induction false} WalkSound(nodes: seq<Node>, q: Box, n: nat, m: nat)
    requires n < |nodes|
    requires match nodes[n].parent
      case None => true
      case Some(p) => p < n && Visited(nodes, q, p)
    requires m in Walk(nodes, q, n)
    ensures Visited(nodes, q, m)
    decreases |nodes| - n, 1
  {
    if m != n {
      WalkChildrenSound(nodes, q, n, Children(nodes, n), m);
    }
  }

  lemma {:induction false} WalkChildrenSound(nodes: seq<Node>, q: Box, n: nat, ks: seq<nat>, m: nat)
    requires Visited(nodes, q, n)
    requires forall j :: 0 <= j < |ks| ==> ks[j] < |nodes| && nodes[ks[j]].parent == Some(n)
    requires m in WalkChildren(nodes, q, n, ks)
    ensures Visited(nodes, q, m)
    decreases |nodes| - n, 0, |ks|
  {
    if n < ks[0] < |nodes| && m in Walk(nodes, q, ks[0]) {
      WalkSound(nodes, q, ks[0], m);
    } else {
      WalkChildrenSound(nodes, q, n, ks[1..], m);
    }
  }

  /** A walk that reaches p also reaches every child of p that passes the check. */
  lemma {:induction false} WalkClosed(nodes: seq<Node>, q: Box, r: nat, p: nat, m: nat)
    requires p in Walk(nodes, q, r)
    requires p < m < |nodes| && nodes[m].parent == Some(p) && Overlaps(q, nodes[m].extent)
    ensures m in Walk(nodes, q, r)
    decreases |nodes| - r
  {
    var ks := Children(nodes, r);
    WalkChildrenMember(nodes, q, r, ks, m);
    if p == r {
      ChildrenComplete(nodes, r, m);
      var j :| 0 <= j < |ks| && ks[j] == m;
      assert m in Walk(nodes, q, ks[j]);
    } else {
      WalkChildrenMember(nodes, q, r, ks, p);
      var j :| 0 <= j < |ks| && r < ks[j] < |nodes| && p in Walk(nodes, q, ks[j]);
      WalkClosed(nodes, q, ks[j], p, m);
    }
  }

  lemma {:induction false} VisitedTraversed(nodes: seq<Node>, q: Box, m: nat)
    requires Visited(nodes, q, m)
    ensures m in Traversal(nodes, q)
    decreases m
  {
    match nodes[m].parent
    case None =>
      assert m in Walk(nodes, q, m);
      TraversalMember(nodes, q, m);
    case Some(p) =>
      VisitedTraversed(nodes, q, p);
      TraversalMember(nodes, q, p);
      var r: nat :| r < |nodes| && IsRoot(nodes, r) && p in Walk(nodes, q, r);
      WalkClosed(nodes, q, r, p, m);
      TraversalMember(nodes, q, m);
  }

  /** The top-down traversal produces exactly the nodes the CTE's rule admits. */
  lemma TraversalExact(nodes: seq<Node>, q: Box, m: nat)
    ensures m in Traversal(nodes, q) <==> Visited(nodes, q, m)
  {
    TraversalMember(nodes, q, m);
    if m in Traversal(nodes, q) {
      var r: nat :| r < |nodes| && IsRoot(nodes, r) && m in Walk(nodes, q, r);
      WalkSound(nodes, q, r, m);
    }
    if Visited(nodes, q, m) {
      VisitedTraversed(nodes, q, m);
    }
  }

  // ---------------------------------------------------------------------
  // The join
  // ---------------------------------------------------------------------

  lemma {:induction false} JoinMember(links: seq<Link>, items: seq<Item>, visited: seq<nat>, q: Box, i: nat)
    ensures i in Join(links, items, visited, q) <==>
      exists l :: l in links && l.item == i && Hit(items, visited, q, l)
  {
    if links != [] {
      var front := links[..|links| - 1];
      assert links == front + [links[|links| - 1]];
      JoinMember(front, items, visited, q, i);
    }
  }

  lemma {:induction false} JoinAppend(a: seq<Link>, b: seq<Link>, items: seq<Item>, visited: seq<nat>, q: Box)
    ensures Join(a + b, items, visited, q) == Join(a, items, visited, q) + Join(b, items, visited, q)
    decreases |b|
  {
    if b == [] {
      assert a + b == a;
    } else {
      var last := b[|b| - 1];
      var front := b[..|b| - 1];
      assert b == front + [last];
      assert (a + b)[..|a + b| - 1] == a + front;
      JoinAppend(a, front, items, visited, q);
    }
  }

  /**
   * intersect returns item i exactly when i's stored bbox passes the check
   * and i is linked to some node the traversal visits.
   */
  lemma IntersectMember(t: Tables, q: Box, i: nat)
    ensures i in Intersect(t, q) <==>
      && i < |t.items| && Overlaps(q, t.items[i].bbox)
      && exists n :: Visited(t.nodes, q, n) && Link(n, i) in t.links
  {
    var visited := Traversal(t.nodes, q);
    JoinMember(t.links, t.items, visited, q, i);
    if i in Intersect(t, q) {
      var l :| l in t.links && l.item == i && Hit(t.items, visited, q, l);
      TraversalExact(t.nodes, q, l.node);
      assert l == Link(l.node, i);
    }
    if i < |t.items| && Overlaps(q, t.items[i].bbox) && exists n :: Visited(t.nodes, q, n) && Link(n, i) in t.links {
      var n :| Visited(t.nodes, q, n) && Link(n, i) in t.links;
      TraversalExact(t.nodes, q, n);
      assert Hit(t.items, visited, q, Link(n, i));
    }
  }

  /** A link row that the select keeps gives its item. */
  lemma JoinHas(links: seq<Link>, items: seq<Item>, visited: seq<nat>, q: Box, j: nat)
    requires j < |links| && Hit(items, visited, q, links[j])
    ensures multiset(Join(links, items, visited, q))[links[j].item] >= 1
  {
    JoinMember(links, items, visited, q, links[j].item);
  }

  /** Two link rows that the select keeps for item i give i twice. */
  lemma JoinDuplicates(links: seq<Link>, items: seq<Item>, visited: seq<nat>, q: Box, i: nat, j1: nat, j2: nat)
    requires j1 < j2 < |links| && links[j1].item == i && links[j2].item == i
    requires Hit(items, visited, q, links[j1]) && Hit(items, visited, q, links[j2])
    ensures multiset(Join(links, items, visited, q))[i] >= 2
  {
    var a := links[..j2];
    var b := links[j2..];
    assert links == a + b;
    JoinAppend(a, b, items, visited, q);
    assert a[j1] == links[j1] && b[0] == links[j2];
    JoinHas(a, items, visited, q, j1);
    JoinHas(b, items, visited, q, 0);
  }

  /**
   * No deduplication: an item linked by two link rows to visited nodes is
   * returned at least twice.
   */
  lemma IntersectDuplicates(t: Tables, q: Box, i: nat, j1: nat, j2: nat)
    requires j1 < j2 < |t.links| && t.links[j1].item == i && t.links[j2].item == i
    requires Visited(t.nodes, q, t.links[j1].node) && Visited(t.nodes, q, t.links[j2].node)
    requires i < |t.items| && Overlaps(q, t.items[i].bbox)
    ensures multiset(Intersect(t, q))[i] >= 2
  {
    TraversalExact(t.nodes, q, t.links[j1].node);
    TraversalExact(t.nodes, q, t.links[j2].node);
    JoinDuplicates(t.links, t.items, Traversal(t.nodes, q), q, i, j1, j2);
  }

  // ---------------------------------------------------------------------
  // Completeness
  // ---------------------------------------------------------------------

  /**
   * An item placed at a visited node n is linked to a visited leaf below n,
   * when its bbox is proper and overlaps a query of positive width and
   * height.
   */
  lemma {:induction false} CoveredReached(t: Tables, extent: Box, maxDepth: int, n: nat, i: nat, q: Box) returns (m: nat)
    requires WellFormed(t, extent, maxDepth)
    requires Covered(t, n, i) && Visited(t.nodes, q, n)
    requires Proper(t.items[i].bbox) && Overlaps(q, t.items[i].bbox) && Solid(q)
    ensures Visited(t.nodes, q, m) && Link(m, i) in t.links
    decreases |t.nodes| - n
  {
    if t.nodes[n].IsLeaf() {
      m := n;
    } else {
      var ks := Children(t.nodes, n);
      assert FamilyOk(t.nodes, t.links, n);
      var quad := QuadrantReachesQuery(t.nodes[n].extent, t.items[i].bbox, q);
      var c := ks[quad - 1];
      assert t.nodes[c].extent == ChildExtent(t.nodes[n].extent, quad);
      assert Covered(t, c, i);
      assert Visited(t.nodes, q, c);
      m := CoveredReached(t, extent, maxDepth, c, i, q);
    }
  }

  /**
   * Every item placed under a root is returned by a query that overlaps the
   * index extent and the item's proper bbox and has positive width and
   * height.
   */
  lemma IntersectComplete(t: Tables, extent: Box, maxDepth: int, r: nat, i: nat, q: Box)
    requires WellFormed(t, extent, maxDepth) && r < |t.nodes| && t.nodes[r].parent.None?
    requires Covered(t, r, i)
    requires Proper(t.items[i].bbox) && Overlaps(q, t.items[i].bbox) && Solid(q) && Overlaps(q, extent)
    ensures i in Intersect(t, q)
  {
    assert NodeOk(t.nodes, r, extent, maxDepth);
    assert Visited(t.nodes, q, r);
    var m := CoveredReached(t, extent, maxDepth, r, i, q);
    IntersectMember(t, q, i);
  }

  /** A well-formed index over (0, 0, 10, 10) split once, holding the item (4, 1, 6, 2) in quadrants 1 and 2. */
  function SplitOnce(): Tables {
    Tables([Node(None, 0, None, Box(0.0, 0.0, 10.0, 10.0)),
            Node(Some(0), 1, Some(1), Box(0.0, 0.0, 5.0, 5.0)), Node(Some(0), 1, Some(1), Box(5.0, 0.0, 10.0, 5.0)),
            Node(Some(0), 1, Some(0), Box(0.0, 5.0, 5.0, 10.0)), Node(Some(0), 1, Some(0), Box(5.0, 5.0, 10.0, 10.0))],
           [Item(7, Box(4.0, 1.0, 6.0, 2.0))],
           [Link(1, 0), Link(2, 0)])
  }

  lemma SplitOnceChildren(p: nat)
    ensures Children(SplitOnce().nodes, p) == if p == 0 then [1, 2, 3, 4] else []
  {
    var nodes := SplitOnce().nodes;
    assert ChildrenBelow(nodes, p, 1) == [];
    assert ChildrenBelow(nodes, p, 2) == if p == 0 then [1] else [];
    assert ChildrenBelow(nodes, p, 3) == if p == 0 then [1, 2] else [];
    assert ChildrenBelow(nodes, p, 4) == if p == 0 then [1, 2, 3] else [];
  }

  lemma SplitOnceLinks(n: nat)
    ensures LinkedItems(SplitOnce().links, n) == if n == 1 || n == 2 then [0] else []
  {
    var links := SplitOnce().links;
    assert links[..1] == [Link(1, 0)] && links[..1][..0] == [];
    assert LinkedItems(links[..1], n) == if n == 1 then [0] else [];
  }

  lemma SplitOnceRootFamily()
    ensures FamilyOk(SplitOnce().nodes, SplitOnce().links, 0)
  {
    var b := Box(0.0, 0.0, 10.0, 10.0);
    SplitOnceChildren(0);
    assert Center(b) == Point(5.0, 5.0);
    forall q | 1 <= q <= 4 ensures SplitOnce().nodes[[1, 2, 3, 4][q - 1]].extent == ChildExtent(b, q) {
    }
  }

  lemma SplitOnceFamilies()
    ensures forall p :: 0 <= p < |SplitOnce().nodes| ==> FamilyOk(SplitOnce().nodes, SplitOnce().links, p)
  {
    var t := SplitOnce();
    assert |t.nodes| == 5;
    forall p | 0 <= p < 5 ensures FamilyOk(t.nodes, t.links, p) {
      if p == 0 {
        SplitOnceRootFamily();
      } else if p <= 2 {
        SplitOnceLeafFamily(p, 1);
      } else {
        SplitOnceLeafFamily(p, 0);
      }
    }
  }

  lemma SplitOnceLeafFamily(p: nat, count: nat)
    requires 1 <= p <= 4 && SplitOnce().nodes[p].itemCount == Some(count)
    requires count == if p <= 2 then 1 else 0
    ensures FamilyOk(SplitOnce().nodes, SplitOnce().links, p)
  {
    SplitOnceChildren(p);
    SplitOnceLinks(p);
    assert CountLinks(SplitOnce().links, p) == count;
  }

  lemma SplitOnceNodes()
    ensures forall m :: 0 <= m < |SplitOnce().nodes| ==> NodeOk(SplitOnce().nodes, m, Box(0.0, 0.0, 10.0, 10.0), 20)
  {
  }

  lemma SplitOnceCovered()
    ensures Covered(SplitOnce(), 0, 0)
  {
    var t := SplitOnce();
    SplitOnceChildren(0);
    var ks := Children(t.nodes, 0);
    var c := Center(t.nodes[0].extent);
    assert c == Point(5.0, 5.0);
    assert Covered(t, 1, 0) && Covered(t, 2, 0);
    forall q | q in Quadrants(t.items[0].bbox, c) ensures Covered(t, ks[q - 1], 0) {
      QuadrantsMember(t.items[0].bbox, c, q);
    }
  }

  lemma SplitOnceWellFormed()
    ensures WellFormed(SplitOnce(), Box(0.0, 0.0, 10.0, 10.0), 20) && Covered(SplitOnce(), 0, 0)
  {
    SplitOnceNodes();
    SplitOnceFamilies();
    SplitOnceCovered();
  }

  /**
   * Completeness needs a query of positive width: in the index SplitOnce,
   * the zero-width query (5, 1, 5, 2) strictly overlaps both the index
   * extent and the item (4, 1, 6, 2) placed at the root, yet meets the
   * child extents only along their shared edge x = 5, which the strict
   * test rejects, so the item is not returned.
   */
  lemma ZeroWidthQueryMissed()
    ensures WellFormed(SplitOnce(), Box(0.0, 0.0, 10.0, 10.0), 20) && Covered(SplitOnce(), 0, 0)
    ensures Overlaps(Box(5.0, 1.0, 5.0, 2.0), Box(0.0, 0.0, 10.0, 10.0))
    ensures Overlaps(Box(5.0, 1.0, 5.0, 2.0), SplitOnce().items[0].bbox)
    ensures 0 !in Intersect(SplitOnce(), Box(5.0, 1.0, 5.0, 2.0))
  {
    SplitOnceWellFormed();
    IntersectMember(SplitOnce(), Box(5.0, 1.0, 5.0, 2.0), 0);
  }
}
