/**
 * What split does to the tables: the links it moves, the children it
 * creates, and the proofs that it keeps the tree invariant and every
 * placement.
 */
module Splitting {
  import opened Geometry
  import opened Store

  /**
   * t' is put together as split(d) puts it together: four rows appended
   * below d, one per quadrant, counting the items the classifier sends
   * there; d marked a branch; d's links replaced by the redistributed ones.
   */
  ghost predicate Assembled(t: Tables, t': Tables, d: nat) {
    AssembledRows(t, t', d) && AssembledLinks(t, t', d)
  }

  ghost predicate AssembledRows(t: Tables, t': Tables, d: nat) {
    var k := |t.nodes|;
    && d < k
    && var x := t.nodes[d]; var c := Center(x.extent);
    && |t'.nodes| == k + 4 && t'.items == t.items
    && t'.nodes[d] == x.(itemCount := None)
    && (forall m :: 0 <= m < k && m != d ==> t'.nodes[m] == t.nodes[m])
    && t'.nodes[k] == NewChild(d, x, 1, QuadCount(Former(t, d), t.items, c, 1))
    && t'.nodes[k + 1] == NewChild(d, x, 2, QuadCount(Former(t, d), t.items, c, 2))
    && t'.nodes[k + 2] == NewChild(d, x, 3, QuadCount(Former(t, d), t.items, c, 3))
    && t'.nodes[k + 3] == NewChild(d, x, 4, QuadCount(Former(t, d), t.items, c, 4))
  }

  ghost predicate AssembledLinks(t: Tables, t': Tables, d: nat) {
    && d < |t.nodes|
    && t'.links == WithoutNode(t.links, d) + Moved(t, d)
  }

  lemma SplitAssembled(t: Tables, d: nat)
    requires d < |t.nodes|
    ensures Assembled(t, SplitTables(t, d), d)
  {
  }

  lemma MovedTargets(t: Tables, d: nat, m: nat)
    requires d < |t.nodes|
    requires m < |t.nodes| || |t.nodes| + 4 <= m
    ensures LinkedItems(Moved(t, d), m) == []
  {
    forall l | l in Moved(t, d) ensures l.node != m {
      RedistributeLinks(Former(t, d), t.items, Center(t.nodes[d].extent), |t.nodes|, l);
    }
    NoLinksTo(Moved(t, d), m);
  }

  /** After split(d), d holds no links and no other existing node's links change. */
  lemma SplitLinksOfOld(t: Tables, t': Tables, d: nat, m: nat)
    requires AssembledLinks(t, t', d) && m < |t.nodes|
    ensures LinkedItems(t'.links, m) == if m == d then [] else LinkedItems(t.links, m)
  {
    LinkedItemsAppend(WithoutNode(t.links, d), Moved(t, d), m);
    WithoutNodeLinked(t.links, d, m);
    MovedTargets(t, d, m);
  }

  /**
   * The links split(d) creates into the child n for quadrant q number the
   * former items the classifier sends to q. (The first new id k and the
   * child's id n are passed as parameters: k = |t.nodes| and n = k + q - 1.)
   */
  lemma MovedCount(t: Tables, d: nat, k: nat, q: Quad, n: nat)
    requires d < |t.nodes| && k == |t.nodes| && n + 1 == k + q
    ensures CountLinks(Moved(t, d), n) == QuadCount(Former(t, d), t.items, Center(t.nodes[d].extent), q)
  {
    RedistributeCount(Former(t, d), t.items, Center(t.nodes[d].extent), k, q, n);
  }

  /** The links split(d) keeps name no new row. */
  lemma OldLinksMissNew(t: Tables, d: nat, k: nat, n: nat)
    requires LinksExist(t) && k == |t.nodes| && k <= n
    ensures CountLinks(WithoutNode(t.links, d), n) == 0
  {
    WithoutNodeLinked(t.links, d, n);
    NoLinksTo(t.links, n);
  }

  /** After split(d), the new child n for quadrant q counts the items the classifier sends there. */
  lemma SplitCountAt(t: Tables, d: nat, k: nat, q: Quad, n: nat)
    requires LinksExist(t) && d < |t.nodes| && k == |t.nodes| && n + 1 == k + q
    ensures CountLinks(WithoutNode(t.links, d) + Moved(t, d), n)
         == QuadCount(Former(t, d), t.items, Center(t.nodes[d].extent), q)
  {
    OldLinksMissNew(t, d, k, n);
    MovedCount(t, d, k, q, n);
    CountLinksAppend(WithoutNode(t.links, d), Moved(t, d), n);
  }

  /**
   * A link split(d) creates: it names one of the new rows k..k+3, for a
   * quadrant q = node - k + 1 that the classifier names for an item that
   * was linked to d.
   */
  ghost predicate NewLink(t: Tables, d: nat, l: Link)
    requires d < |t.nodes|
  {
    var k := |t.nodes|;
    && k <= l.node < k + 4 && l.item < |t.items| && Link(d, l.item) in t.links
    && l.node - k + 1 in Quadrants(t.items[l.item].bbox, Center(t.nodes[d].extent))
  }

  /** The links split(d) creates are exactly the new links. */
  lemma MovedMember(t: Tables, d: nat, l: Link)
    requires d < |t.nodes|
    ensures l in Moved(t, d) <==> NewLink(t, d, l)
  {
    RedistributeLinks(Former(t, d), t.items, Center(t.nodes[d].extent), |t.nodes|, l);
    LinkedItemsMember(t.links, d, l.item);
  }

  /** The links after split(d): the links of every other node, and the new links. */
  lemma SplitLinkMember(t: Tables, t': Tables, d: nat, l: Link)
    requires AssembledLinks(t, t', d)
    ensures l in t'.links <==> (l in t.links && l.node != d) || NewLink(t, d, l)
  {
    assert l in t'.links <==> l in WithoutNode(t.links, d) || l in Moved(t, d);
    WithoutNodeMember(t.links, d, l);
    MovedMember(t, d, l);
  }

  /**
   * The effect of split(d) on the tables, with k the first new id: four rows
   * k..k+3 appended, leaves one level below d in quadrants 1..4 whose counts
   * are their numbers of links; d turned into a branch; the other rows and
   * the items unchanged; d holds no links and no other old node's links
   * change; item it is linked into child k + q - 1 exactly when it was
   * linked to d and q is one of its quadrants about d's centre; and no
   * other link is created.
   */
  ghost predicate SplitLike(t: Tables, t': Tables, d: nat) {
    SplitNodes(t, t', d) && SplitLinks(t, t', d)
  }

  /** The node and item tables after split(d). */
  ghost predicate SplitNodes(t: Tables, t': Tables, d: nat) {
    var k := |t.nodes|;
    && d < k && |t'.nodes| == k + 4 && t'.items == t.items
    && t'.nodes[d] == t.nodes[d].(itemCount := None)
    && (forall m :: 0 <= m < k && m != d ==> t'.nodes[m] == t.nodes[m])
    && (forall m :: k <= m < k + 4 ==> t'.nodes[m] == NewChild(d, t.nodes[d], m - k + 1, CountLinks(t'.links, m)))
  }

  /** The link table after split(d). */
  ghost predicate SplitLinks(t: Tables, t': Tables, d: nat) {
    var k := |t.nodes|;
    && d < k
    && (forall m :: 0 <= m < k ==> LinkedItems(t'.links, m) == if m == d then [] else LinkedItems(t.links, m))
    && (forall l :: l in t'.links <==> (l in t.links && l.node != d) || NewLink(t, d, l))
  }

  lemma SplitNodesHold(t: Tables, t': Tables, d: nat)
    requires Assembled(t, t', d) && LinksExist(t)
    ensures SplitNodes(t, t', d)
  {
    var k := |t.nodes|;
    SplitCountAt(t, d, k, 1, k);
    SplitCountAt(t, d, k, 2, k + 1);
    SplitCountAt(t, d, k, 3, k + 2);
    SplitCountAt(t, d, k, 4, k + 3);
    NewRows(t'.nodes, t'.links, Former(t, d), t.items, d, t.nodes[d], k);
  }

  lemma NewRows(nodes: seq<Node>, links: seq<Link>, its: seq<nat>, items: seq<Item>, d: nat, x: Node, k: nat)
    requires |nodes| == k + 4
    requires nodes[k] == NewChild(d, x, 1, QuadCount(its, items, Center(x.extent), 1))
    requires nodes[k + 1] == NewChild(d, x, 2, QuadCount(its, items, Center(x.extent), 2))
    requires nodes[k + 2] == NewChild(d, x, 3, QuadCount(its, items, Center(x.extent), 3))
    requires nodes[k + 3] == NewChild(d, x, 4, QuadCount(its, items, Center(x.extent), 4))
    requires CountLinks(links, k) == QuadCount(its, items, Center(x.extent), 1)
    requires CountLinks(links, k + 1) == QuadCount(its, items, Center(x.extent), 2)
    requires CountLinks(links, k + 2) == QuadCount(its, items, Center(x.extent), 3)
    requires CountLinks(links, k + 3) == QuadCount(its, items, Center(x.extent), 4)
    ensures forall m :: k <= m < k + 4 ==> nodes[m] == NewChild(d, x, m - k + 1, CountLinks(links, m))
  {
    forall m | k <= m < k + 4 ensures nodes[m] == NewChild(d, x, m - k + 1, CountLinks(links, m)) {
      if m == k {
      } else if m == k + 1 {
      } else if m == k + 2 {
      } else {
      }
    }
  }

  lemma SplitLinksHold(t: Tables, t': Tables, d: nat)
    requires AssembledLinks(t, t', d)
    ensures SplitLinks(t, t', d)
  {
    var k := |t.nodes|;
    forall m: nat | m < k ensures LinkedItems(t'.links, m) == if m == d then [] else LinkedItems(t.links, m) {
      SplitLinksOfOld(t, t', d, m);
    }
    forall l ensures l in t'.links <==> (l in t.links && l.node != d) || NewLink(t, d, l) {
      SplitLinkMember(t, t', d, l);
    }
  }

  /** The split tables have exactly the effect described by SplitLike. */
  lemma SplitRelinks(t: Tables, d: nat)
    requires LinksExist(t) && d < |t.nodes|
    ensures SplitLike(t, SplitTables(t, d), d)
  {
    SplitAssembled(t, d);
    SplitNodesHold(t, SplitTables(t, d), d);
    SplitLinksHold(t, SplitTables(t, d), d);
  }

  lemma SplitNodesOk(t: Tables, t': Tables, extent: Box, maxDepth: int, d: nat)
    requires WellFormed(t, extent, maxDepth) && SplitLike(t, t', d)
    requires t.nodes[d].IsLeaf() && t.nodes[d].depth < maxDepth
    ensures forall m :: 0 <= m < |t'.nodes| ==> NodeOk(t'.nodes, m, extent, maxDepth)
  {
    forall m | 0 <= m < |t'.nodes| ensures NodeOk(t'.nodes, m, extent, maxDepth) {
      if m < |t.nodes| {
        assert NodeOk(t.nodes, m, extent, maxDepth);
      }
    }
  }

  /** The children after a split: d has the four new rows, every other node keeps its own. */
  lemma SplitChildren(t: Tables, t': Tables, extent: Box, maxDepth: int, d: nat)
    requires WellFormed(t, extent, maxDepth) && SplitLike(t, t', d) && t.nodes[d].IsLeaf()
    ensures var k := |t.nodes|; Children(t'.nodes, d) == [k, k + 1, k + 2, k + 3]
    ensures forall p :: p != d ==> Children(t'.nodes, p) == Children(t.nodes, p)
    ensures forall p :: |t.nodes| <= p ==> Children(t.nodes, p) == []
  {
    assert FamilyOk(t.nodes, t.links, d);
    ChildrenAfterSplit(t.nodes, t'.nodes, d);
    forall p: nat | |t.nodes| <= p ensures Children(t.nodes, p) == [] {
      forall m | 0 <= m < |t.nodes| ensures t.nodes[m].parent != Some(p) {
        assert NodeOk(t.nodes, m, extent, maxDepth);
      }
      ChildrenBelowNone(t.nodes, p, |t.nodes|);
    }
  }

  lemma SplitFamiliesOk(t: Tables, t': Tables, extent: Box, maxDepth: int, d: nat)
    requires WellFormed(t, extent, maxDepth) && SplitLike(t, t', d) && t.nodes[d].IsLeaf()
    ensures forall p :: 0 <= p < |t'.nodes| ==> FamilyOk(t'.nodes, t'.links, p)
  {
    var k := |t.nodes|;
    SplitChildren(t, t', extent, maxDepth, d);
    forall p | 0 <= p < |t'.nodes| ensures FamilyOk(t'.nodes, t'.links, p) {
      if p < k {
        assert FamilyOk(t.nodes, t.links, p);
        if p != d && !t.nodes[p].IsLeaf() {
          var ks := Children(t.nodes, p);
          forall q | 1 <= q <= 4 ensures t'.nodes[ks[q - 1]].extent == ChildExtent(t'.nodes[p].extent, q) {
            assert ks[q - 1] < k;
          }
        }
      }
    }
  }

  lemma SplitLinksOk(t: Tables, t': Tables, extent: Box, maxDepth: int, d: nat)
    requires WellFormed(t, extent, maxDepth) && SplitLike(t, t', d)
    ensures forall l :: l in t'.links ==> LinkOk(t', l)
  {
    forall l | l in t'.links ensures LinkOk(t', l) {
      if l in t.links && l.node != d {
        assert LinkOk(t, l);
      }
    }
  }

  lemma SplitGrows(t: Tables, t': Tables, extent: Box, maxDepth: int, d: nat)
    requires WellFormed(t, extent, maxDepth) && SplitLike(t, t', d) && t.nodes[d].IsLeaf()
    ensures Grows(t.nodes, t'.nodes)
  {
    SplitChildren(t, t', extent, maxDepth, d);
    forall m | 0 <= m < |t.nodes| ensures Persists(t.nodes, t'.nodes, m) {
    }
  }

  /** A branch whose four children are leaves holding i in each of i's quadrants places i. */
  lemma CoveredAtFreshBranch(t': Tables, d: nat, k: nat, i: nat)
    requires d < k && |t'.nodes| == k + 4 && i < |t'.items| && !t'.nodes[d].IsLeaf()
    requires Children(t'.nodes, d) == [k, k + 1, k + 2, k + 3]
    requires forall m :: k <= m < k + 4 ==> t'.nodes[m].IsLeaf()
    requires forall q :: q in Quadrants(t'.items[i].bbox, Center(t'.nodes[d].extent)) ==> Link(k + q - 1, i) in t'.links
    ensures Covered(t', d, i)
  {
    var ks := Children(t'.nodes, d);
    forall q | q in Quadrants(t'.items[i].bbox, Center(t'.nodes[d].extent))
      ensures Covered(t', ks[q - 1], i)
    {
      assert ks[q - 1] == k + q - 1;
      CoveredAtLeaf(t', ks[q - 1], i);
    }
    CoveredAtBranch(t', d, i, ks);
  }

  lemma CoveredAtLeaf(t: Tables, n: nat, i: nat)
    requires n < |t.nodes| && i < |t.items| && t.nodes[n].IsLeaf() && Link(n, i) in t.links
    ensures Covered(t, n, i)
  {
  }

  lemma CoveredAtBranch(t: Tables, n: nat, i: nat, ks: seq<nat>)
    requires n < |t.nodes| && i < |t.items| && !t.nodes[n].IsLeaf()
    requires Children(t.nodes, n) == ks && |ks| == 4 && forall j :: 0 <= j < 4 ==> n < ks[j]
    requires forall q :: q in Quadrants(t.items[i].bbox, Center(t.nodes[n].extent)) ==> Covered(t, ks[q - 1], i)
    ensures Covered(t, n, i)
  {
  }

  /** Where d was a leaf holding i, the split d places i in the children of i's quadrants. */
  lemma SplitCoversAtNode(t: Tables, t': Tables, d: nat, i: nat)
    requires SplitNodes(t, t', d) && SplitLinks(t, t', d)
    requires var k := |t.nodes|; Children(t'.nodes, d) == [k, k + 1, k + 2, k + 3]
    requires i < |t.items| && Link(d, i) in t.links
    ensures Covered(t', d, i)
  {
    var k := |t.nodes|;
    FreshLeaves(t, t', d);
    FreshLinks(t, t', d, i);
    CoveredAtFreshBranch(t', d, k, i);
  }

  /** The four rows split(d) appends are leaves. */
  lemma FreshLeaves(t: Tables, t': Tables, d: nat)
    requires SplitNodes(t, t', d)
    ensures forall m :: |t.nodes| <= m < |t.nodes| + 4 ==> t'.nodes[m].IsLeaf()
  {
  }

  /** After split(d), a former item i of d is linked into the child of each of its quadrants. */
  lemma FreshLinks(t: Tables, t': Tables, d: nat, i: nat)
    requires SplitNodes(t, t', d) && SplitLinks(t, t', d) && i < |t.items| && Link(d, i) in t.links
    ensures forall q :: q in Quadrants(t'.items[i].bbox, Center(t'.nodes[d].extent)) ==> Link(|t.nodes| + q - 1, i) in t'.links
  {
    var k := |t.nodes|;
    assert t'.nodes[d].extent == t.nodes[d].extent && t'.items == t.items;
    forall q | q in Quadrants(t'.items[i].bbox, Center(t'.nodes[d].extent)) ensures Link(k + q - 1, i) in t'.links {
      NewLinkIn(t, t', d, k, q, k + q - 1, i);
    }
  }

  /** After split(d), i is linked into the child n = k + q - 1 of each quadrant q of i. */
  lemma NewLinkIn(t: Tables, t': Tables, d: nat, k: nat, q: Quad, n: nat, i: nat)
    requires SplitLinks(t, t', d)
    requires k == |t.nodes| && n + 1 == k + q && i < |t.items| && Link(d, i) in t.links
    requires q in Quadrants(t.items[i].bbox, Center(t.nodes[d].extent))
    ensures Link(n, i) in t'.links
  {
    assert NewLink(t, d, Link(n, i));
  }

  lemma {:induction false} SplitKeepsCovered(t: Tables, t': Tables, d: nat, n: nat, i: nat)
    requires SplitNodes(t, t', d) && SplitLinks(t, t', d) && t.nodes[d].IsLeaf()
    requires var k := |t.nodes|; Children(t'.nodes, d) == [k, k + 1, k + 2, k + 3]
    requires forall p :: p != d ==> Children(t'.nodes, p) == Children(t.nodes, p)
    requires Covered(t, n, i)
    ensures Covered(t', n, i)
    decreases |t.nodes| - n
  {
    if n == d {
      SplitCoversAtNode(t, t', d, i);
    } else if t.nodes[n].IsLeaf() {
      LinkedItemsMember(t.links, n, i);
      assert i in LinkedItems(t.links, n);
    } else {
      var ks := Children(t.nodes, n);
      forall q | q in Quadrants(t.items[i].bbox, Center(t.nodes[n].extent))
        ensures Covered(t', ks[q - 1], i)
      {
        SplitKeepsCovered(t, t', d, ks[q - 1], i);
      }
    }
  }

  // ---------------------------------------------------------------------
  // split(d) one link at a time
  // ---------------------------------------------------------------------

  /**
   * Child q part-way through split(d): it counts the items of `done` sent to
   * q, plus one when the current item has already been sent there.
   */
  function StagedChild(t: Tables, d: nat, done: seq<nat>, quads: seq<Quad>, q: Quad): Node
    requires d < |t.nodes|
  {
    var x := t.nodes[d];
    NewChild(d, x, q, QuadCount(done, t.items, Center(x.extent), q) + (if q in quads then 1 else 0))
  }

  /**
   * The tables part-way through split(d): the children appended, d a branch
   * without links, the former items `done` relinked, and the current item
   * `it` linked into the children of the quadrants `quads` so far.
   */
  function Staged(t: Tables, d: nat, done: seq<nat>, it: nat, quads: seq<Quad>): Tables
    requires d < |t.nodes|
  {
    var x := t.nodes[d];
    var k := |t.nodes|;
    var kids := [StagedChild(t, d, done, quads, 1), StagedChild(t, d, done, quads, 2),
                 StagedChild(t, d, done, quads, 3), StagedChild(t, d, done, quads, 4)];
    Tables(t.nodes[d := x.(itemCount := None)] + kids, t.items,
           WithoutNode(t.links, d) + Redistribute(done, t.items, Center(x.extent), k) + Fan(it, quads, k))
  }

  /** Before any item is relinked: four empty children, d a branch, d's links deleted. */
  lemma StagedStart(t: Tables, d: nat)
    requires d < |t.nodes|
    ensures var x := t.nodes[d];
      Staged(t, d, [], 0, []) == Tables(
        (t.nodes + [NewChild(d, x, 1, 0), NewChild(d, x, 2, 0), NewChild(d, x, 3, 0), NewChild(d, x, 4, 0)])[d := x.(itemCount := None)],
        t.items, WithoutNode(t.links, d))
  {
    var x := t.nodes[d];
    var kids := [NewChild(d, x, 1, 0), NewChild(d, x, 2, 0), NewChild(d, x, 3, 0), NewChild(d, x, 4, 0)];
    assert (t.nodes + kids)[d := x.(itemCount := None)] == t.nodes[d := x.(itemCount := None)] + kids;
    assert Fan(0, [], |t.nodes|) == [];
    assert WithoutNode(t.links, d) + [] + [] == WithoutNode(t.links, d);
  }

  /** add_item of the current item into the child n for a quadrant q not yet served. */
  lemma StagedAdd(t: Tables, d: nat, done: seq<nat>, it: nat, quads: seq<Quad>, q: Quad, k: nat, n: nat)
    requires d < |t.nodes| && k == |t.nodes| && n + 1 == k + q && q !in quads
    ensures AddItemTables(Staged(t, d, done, it, quads), n, it) == Staged(t, d, done, it, quads + [q])
  {
    var s := Staged(t, d, done, it, quads);
    var s' := Staged(t, d, done, it, quads + [q]);
    StagedAddCount(t, d, done, it, quads, q, k, n);
    StagedAddLinks(t, d, done, it, quads, q, k, n);
    assert s.items == s'.items;
  }

  /** The nodes half of StagedAdd: child q's count goes up by one. */
  lemma StagedAddCount(t: Tables, d: nat, done: seq<nat>, it: nat, quads: seq<Quad>, q: Quad, k: nat, n: nat)
    requires d < |t.nodes| && k == |t.nodes| && n + 1 == k + q && q !in quads
    ensures var s := Staged(t, d, done, it, quads);
      n < |s.nodes| && s.nodes[n].itemCount.Some? &&
      s.nodes[n := s.nodes[n].(itemCount := Some(s.nodes[n].itemCount.value + 1))] == Staged(t, d, done, it, quads + [q]).nodes
  {
    StagedAddNodes(t, d, done, quads, q, k, n);
    var s := Staged(t, d, done, it, quads);
    assert s.nodes[n] == StagedChild(t, d, done, quads, q);
  }

  /** The links half of StagedAdd: the link (n, it) is appended. */
  lemma StagedAddLinks(t: Tables, d: nat, done: seq<nat>, it: nat, quads: seq<Quad>, q: Quad, k: nat, n: nat)
    requires d < |t.nodes| && k == |t.nodes| && n + 1 == k + q
    ensures Staged(t, d, done, it, quads).links + [Link(n, it)] == Staged(t, d, done, it, quads + [q]).links
  {
    var w := WithoutNode(t.links, d) + Redistribute(done, t.items, Center(t.nodes[d].extent), k);
    assert Fan(it, quads + [q], k) == Fan(it, quads, k) + [Link(n, it)];
    assert Staged(t, d, done, it, quads).links == w + Fan(it, quads, k);
    assert Staged(t, d, done, it, quads + [q]).links == w + Fan(it, quads + [q], k);
  }

  /** Part-way through split(d), the items and d's extent are those split started from. */
  lemma StagedFrame(t: Tables, d: nat, done: seq<nat>, it: nat, quads: seq<Quad>)
    requires d < |t.nodes|
    ensures var s := Staged(t, d, done, it, quads);
      s.items == t.items && |s.nodes| == |t.nodes| + 4 && s.nodes[d].extent == t.nodes[d].extent
  {
  }

  /** Before the current item reaches any quadrant, it adds nothing. */
  lemma StagedIdle(t: Tables, d: nat, done: seq<nat>, it: nat)
    requires d < |t.nodes|
    ensures Staged(t, d, done, it, []) == Staged(t, d, done, 0, [])
  {
    assert Fan(it, [], |t.nodes|) == [] == Fan(0, [], |t.nodes|);
  }

  /**
   * The e-th quadrant step of the current item: add_item into its child,
   * for any list of distinct quadrants.
   */
  lemma StagedAddStep(t: Tables, d: nat, done: seq<nat>, it: nat, quads: seq<Quad>, e: nat, k: nat)
    requires d < |t.nodes| && k == |t.nodes| && e < |quads|
    requires forall j, j' :: 0 <= j < j' < |quads| ==> quads[j] != quads[j']
    ensures k + quads[e] - 1 < |Staged(t, d, done, it, quads[..e]).nodes|
    ensures AddItemTables(Staged(t, d, done, it, quads[..e]), k + quads[e] - 1, it) == Staged(t, d, done, it, quads[..e + 1])
  {
    var p, q := quads[..e], quads[e];
    assert q !in p by {
      forall j | 0 <= j < e ensures p[j] != q {
        assert p[j] == quads[j];
      }
    }
    assert quads[..e + 1] == p + [q];
    StagedAdd(t, d, done, it, p, q, k, k + q - 1);
    assert Staged(t, d, done, it, p + [q]) == Staged(t, d, done, it, quads[..e + 1]);
  }

  lemma StagedAddNodes(t: Tables, d: nat, done: seq<nat>, quads: seq<Quad>, q: Quad, k: nat, n: nat)
    requires d < |t.nodes| && k == |t.nodes| && n + 1 == k + q && q !in quads
    ensures var x := t.nodes[d];
      var before := t.nodes[d := x.(itemCount := None)] + [StagedChild(t, d, done, quads, 1), StagedChild(t, d, done, quads, 2),
                    StagedChild(t, d, done, quads, 3), StagedChild(t, d, done, quads, 4)];
      var after := t.nodes[d := x.(itemCount := None)] + [StagedChild(t, d, done, quads + [q], 1), StagedChild(t, d, done, quads + [q], 2),
                    StagedChild(t, d, done, quads + [q], 3), StagedChild(t, d, done, quads + [q], 4)];
      before[n := before[n].(itemCount := Some(before[n].itemCount.value + 1))] == after
  {
    var x := t.nodes[d];
    var pre := t.nodes[d := x.(itemCount := None)];
    var b := [StagedChild(t, d, done, quads, 1), StagedChild(t, d, done, quads, 2),
              StagedChild(t, d, done, quads, 3), StagedChild(t, d, done, quads, 4)];
    var a := [StagedChild(t, d, done, quads + [q], 1), StagedChild(t, d, done, quads + [q], 2),
              StagedChild(t, d, done, quads + [q], 3), StagedChild(t, d, done, quads + [q], 4)];
    StagedChildAdd(t, d, done, quads, q, 1);
    StagedChildAdd(t, d, done, quads, q, 2);
    StagedChildAdd(t, d, done, quads, q, 3);
    StagedChildAdd(t, d, done, quads, q, 4);
    var v := b[q - 1].(itemCount := Some(b[q - 1].itemCount.value + 1));
    assert b[q - 1 := v] == a;
    UpdateAfter(pre, b, q - 1, n, v);
  }

  /** Serving quadrant q raises the count of child q by one and leaves the others. */
  lemma StagedChildAdd(t: Tables, d: nat, done: seq<nat>, quads: seq<Quad>, q: Quad, q': Quad)
    requires d < |t.nodes| && q !in quads
    ensures var c := StagedChild(t, d, done, quads, q');
      StagedChild(t, d, done, quads + [q], q') ==
        if q' == q then c.(itemCount := Some(c.itemCount.value + 1)) else c
  {
    assert (q' in quads + [q]) == (q' in quads || q' == q);
  }

  /** Updating position n = |a| + j of a + b updates position j of b. */
  lemma UpdateAfter<T>(a: seq<T>, b: seq<T>, j: nat, n: nat, v: T)
    requires j < |b| && n == |a| + j
    ensures (a + b)[n := v] == a + b[j := v]
  {
  }

  /** Once the current item reached all its quadrants, it counts as done. */
  lemma StagedNext(t: Tables, d: nat, done: seq<nat>, it: nat)
    requires d < |t.nodes|
    ensures Staged(t, d, done, it, QuadsOf(t.items, it, Center(t.nodes[d].extent))) == Staged(t, d, done + [it], 0, [])
  {
    var c := Center(t.nodes[d].extent);
    var k := |t.nodes|;
    var quads := QuadsOf(t.items, it, c);
    var s := Staged(t, d, done, it, quads);
    var s' := Staged(t, d, done + [it], 0, []);
    assert s.nodes == s'.nodes by {
      StagedNextChild(t, d, done, it, 1);
      StagedNextChild(t, d, done, it, 2);
      StagedNextChild(t, d, done, it, 3);
      StagedNextChild(t, d, done, it, 4);
    }
    assert s.links == s'.links by {
      RedistributeNext(done, t.items, c, k, it);
      assert Fan(0, [], k) == [];
      var w := WithoutNode(t.links, d);
      var r := Redistribute(done, t.items, c, k);
      var f := Fan(it, quads, k);
      AppendAssoc(w, r, f);
      assert w + (r + f) + [] == w + (r + f);
    }
  }

  lemma AppendAssoc<T>(a: seq<T>, b: seq<T>, c: seq<T>)
    ensures a + b + c == a + (b + c)
  {
  }

  /** Relinking one more former item appends its fan. */
  lemma RedistributeNext(done: seq<nat>, items: seq<Item>, c: Point, k: nat, it: nat)
    ensures Redistribute(done + [it], items, c, k) == Redistribute(done, items, c, k) + Fan(it, QuadsOf(items, it, c), k)
  {
    var next := done + [it];
    assert next[..|next| - 1] == done && next[|next| - 1] == it;
  }

  lemma StagedNextChild(t: Tables, d: nat, done: seq<nat>, it: nat, q: Quad)
    requires d < |t.nodes|
    ensures StagedChild(t, d, done, QuadsOf(t.items, it, Center(t.nodes[d].extent)), q) == StagedChild(t, d, done + [it], [], q)
  {
    var next := done + [it];
    assert next[..|next| - 1] == done && next[|next| - 1] == it;
  }

  /** With every former item done, the staged tables are the split tables. */
  lemma StagedDone(t: Tables, d: nat)
    requires d < |t.nodes|
    ensures Staged(t, d, Former(t, d), 0, []) == SplitTables(t, d)
  {
    assert Fan(0, [], |t.nodes|) == [];
  }

  /**
   * Splitting a leaf above the depth ceiling keeps the tree invariant, only
   * grows the tree, and keeps every placement: an item placed at d is now
   * placed in the children of its quadrants.
   */
  lemma SplitKeeps(t: Tables, extent: Box, maxDepth: int, d: nat)
    requires WellFormed(t, extent, maxDepth) && d < |t.nodes|
    requires t.nodes[d].IsLeaf() && t.nodes[d].depth < maxDepth
    ensures SplitLike(t, SplitTables(t, d), d)
    ensures WellFormed(SplitTables(t, d), extent, maxDepth)
    ensures Grows(t.nodes, SplitTables(t, d).nodes)
    ensures CoverageKept(t, SplitTables(t, d))
  {
    WellFormedLinksExist(t, extent, maxDepth);
    var t' := SplitTables(t, d);
    SplitRelinks(t, d);
    SplitNodesOk(t, t', extent, maxDepth, d);
    SplitFamiliesOk(t, t', extent, maxDepth, d);
    SplitLinksOk(t, t', extent, maxDepth, d);
    SplitGrows(t, t', extent, maxDepth, d);
    SplitChildren(t, t', extent, maxDepth, d);
    forall n, i | Covered(t, n, i) ensures Covered(t', n, i) {
      SplitKeepsCovered(t, t', d, n, i);
    }
  }
}
