/**
 * What insert does at a leaf: add the link, then split the leaf when it
 * holds more than max_items items and lies above max_depth.
 */
module Insertion {
  import opened Geometry
  import opened Store
  import opened Splitting

  /** The split test of insert: more than maxItems items, and room below. */
  predicate SplitDue(count: int, depth: int, maxItems: int, maxDepth: int) {
    count > maxItems && depth < maxDepth
  }

  /** insert(item) at the leaf n: add_item, then split when due. */
  function LeafInserted(t: Tables, maxItems: int, maxDepth: int, n: nat, i: nat): Tables
    requires n < |t.nodes|
  {
    var t1 := AddItemTables(t, n, i);
    var x := t1.nodes[n];
    if x.itemCount.Some? && SplitDue(x.itemCount.value, x.depth, maxItems, maxDepth) then SplitTables(t1, n)
    else t1
  }

  /**
   * Inserting into a leaf adds exactly one link and raises the count by
   * one; the node is a branch afterwards exactly when the new count exceeds
   * maxItems and the node lies above maxDepth, and then it has been split
   * as split does. Either way the tree invariant and every placement hold,
   * the tree only grows, the new item is placed at the node, and no other
   * node's row or links change.
   */
  lemma LeafInsertion(t: Tables, extent: Box, maxItems: int, maxDepth: int, n: nat, i: nat)
    requires WellFormed(t, extent, maxDepth) && n < |t.nodes| && t.nodes[n].IsLeaf() && i < |t.items|
    ensures var t' := LeafInserted(t, maxItems, maxDepth, n, i);
      var count := t.nodes[n].itemCount.value + 1;
      && (t'.nodes[n].IsLeaf() <==> !SplitDue(count, t.nodes[n].depth, maxItems, maxDepth))
      && (t'.nodes[n].IsLeaf() ==>
            && t'.nodes[n].itemCount == Some(count)
            && LinkedItems(t'.links, n) == LinkedItems(t.links, n) + [i]
            && forall m :: m != n ==> LinkedItems(t'.links, m) == LinkedItems(t.links, m))
      && (!t'.nodes[n].IsLeaf() ==> SplitLike(AddItemTables(t, n, i), t', n))
      && WellFormed(t', extent, maxDepth) && Grows(t.nodes, t'.nodes)
      && CoverageKept(t, t') && Covered(t', n, i) && t'.items == t.items
      && KeptElsewhere(t, t', n)
  {
    var t1 := AddItemTables(t, n, i);
    AddItemLinks(t, n, i);
    AddItemKeepsWellFormed(t, extent, maxDepth, n, i);
    AddItemKeepsCoverage(t, n, i);
    var x := t1.nodes[n];
    if SplitDue(x.itemCount.value, x.depth, maxItems, maxDepth) {
      var t' := SplitTables(t1, n);
      SplitKeeps(t1, extent, maxDepth, n);
      GrowsTrans(t.nodes, t1.nodes, t'.nodes);
      assert t'.nodes[n] == x.(itemCount := None);
      forall m | 0 <= m < |t.nodes| && m != n ensures Kept(t, t', m) {
        assert t'.nodes[m] == t1.nodes[m];
        assert LinkedItems(t'.links, m) == LinkedItems(t1.links, m);
      }
    }
  }

  /**
   * The tables after insert(item i) at node n: at a leaf, the leaf insertion;
   * at a branch, the insertions into the subnodes of i's quadrants about n's
   * centre, one after the other in quadrant order. A missing node or item,
   * or a branch that is not above the ceiling with four children one level
   * deeper, leaves the tables as they are; under the tree invariant neither
   * occurs.
   */
  function Inserted(t: Tables, maxItems: int, maxDepth: int, n: nat, i: nat): Tables
    decreases if n < |t.nodes| then maxDepth - t.nodes[n].depth else 0, 1
  {
    if n >= |t.nodes| then t
    else if t.nodes[n].IsLeaf() then LeafInserted(t, maxItems, maxDepth, n, i)
    else
      var ks := Children(t.nodes, n);
      if i < |t.items| && |ks| == 4 && t.nodes[n].depth < maxDepth then
        InsertedInto(t, maxItems, maxDepth, t.nodes[n].depth, ks, Quadrants(t.items[i].bbox, Center(t.nodes[n].extent)), i)
      else t
  }

  /**
   * The branch case of insert: starting from t, item i inserted into the
   * subnodes ks[q - 1] for the quadrants q of quads, in order, where the
   * branch lies at the given depth.
   */
  function InsertedInto(t: Tables, maxItems: int, maxDepth: int, depth: int, ks: seq<nat>, quads: seq<Quad>, i: nat): Tables
    requires |ks| == 4
    decreases maxDepth - depth, 0, |quads|
  {
    if quads == [] then t
    else
      var t' := InsertedInto(t, maxItems, maxDepth, depth, ks, quads[..|quads| - 1], i);
      var c := ks[quads[|quads| - 1] - 1];
      if c < |t'.nodes| && t'.nodes[c].depth == depth + 1 && depth < maxDepth then Inserted(t', maxItems, maxDepth, c, i)
      else t'
  }

  /** One more quadrant of the branch case: insert into its subnode, one level deeper. */
  lemma InsertedIntoNext(t: Tables, maxItems: int, maxDepth: int, depth: int, ks: seq<nat>, quads: seq<Quad>, i: nat, e: nat, before: Tables)
    requires |ks| == 4 && e < |quads| && before == InsertedInto(t, maxItems, maxDepth, depth, ks, quads[..e], i)
    requires ks[quads[e] - 1] < |before.nodes| && before.nodes[ks[quads[e] - 1]].depth == depth + 1 && depth < maxDepth
    ensures InsertedInto(t, maxItems, maxDepth, depth, ks, quads[..e + 1], i) == Inserted(before, maxItems, maxDepth, ks[quads[e] - 1], i)
  {
    var s := quads[..e + 1];
    assert s != [] && s[..|s| - 1] == quads[..e] && s[|s| - 1] == quads[e];
  }

  /**
   * Insert's branch case at n, from t0 to t, after the quadrants qs: the
   * tree grew and kept its placements, n kept its row and its children ks,
   * item i is placed at the child of every quadrant in qs, nothing outside
   * those children's subtrees changed, and t is exactly the insertion into
   * them in order.
   */
  ghost predicate BranchProgress(t0: Tables, t: Tables, maxItems: int, maxDepth: int, n: nat, ks: seq<nat>, qs: seq<Quad>, i: nat) {
    && n < |t0.nodes| && n < |t.nodes| && |ks| == 4
    && Grows(t0.nodes, t.nodes) && CoverageKept(t0, t)
    && t.nodes[n] == t0.nodes[n] && Children(t.nodes, n) == ks
    && CoveredUnder(t, ks, qs, i) && KeptOutside(t0, t, ks, qs)
    && t == InsertedInto(t0, maxItems, maxDepth, t0.nodes[n].depth, ks, qs, i)
  }

  /**
   * One quadrant of insert's branch case: the insertion into the child of
   * qs[e], which grew the tree, kept placements, placed i there and changed
   * nothing outside that child's subtree, extends the progress by qs[e].
   */
  lemma BranchStep(t0: Tables, before: Tables, after: Tables, maxItems: int, maxDepth: int, n: nat, ks: seq<nat>, qs: seq<Quad>, e: nat, i: nat)
    requires e < |qs| && BranchProgress(t0, before, maxItems, maxDepth, n, ks, qs[..e], i) && !t0.nodes[n].IsLeaf()
    requires ks[qs[e] - 1] < |before.nodes| && before.nodes[ks[qs[e] - 1]].depth == t0.nodes[n].depth + 1
    requires t0.nodes[n].depth < maxDepth
    requires Grows(before.nodes, after.nodes) && CoverageKept(before, after) && Covered(after, ks[qs[e] - 1], i)
    requires KeptBeyond(before, after, ks[qs[e] - 1]) && after == Inserted(before, maxItems, maxDepth, ks[qs[e] - 1], i)
    ensures BranchProgress(t0, after, maxItems, maxDepth, n, ks, qs[..e + 1], i)
  {
    InsertedIntoNext(t0, maxItems, maxDepth, t0.nodes[n].depth, ks, qs, i, e, before);
    KeptStep(t0, before, after, ks, qs, e);
    SubnodeStep(t0, before, after, n, ks, qs, e, i);
  }

  /**
   * The end of insert's branch case: after all of i's quadrants, i is
   * placed at the branch n, which still holds no links.
   */
  lemma BranchDone(t0: Tables, t: Tables, extent: Box, maxItems: int, maxDepth: int, n: nat, ks: seq<nat>, i: nat)
    requires WellFormed(t, extent, maxDepth) && n < |t0.nodes| && !t0.nodes[n].IsLeaf() && i < |t0.items| && t.items == t0.items
    requires forall j :: 0 <= j < |ks| ==> n < ks[j]
    requires BranchProgress(t0, t, maxItems, maxDepth, n, ks, Quadrants(t0.items[i].bbox, Center(t0.nodes[n].extent)), i)
    ensures Covered(t, n, i) && LinkedItems(t.links, n) == []
  {
    CoveredAtBranch(t, n, i, ks);
    BranchHoldsNoLinks(t, extent, maxDepth, n);
  }
}
