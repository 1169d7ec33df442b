/**
 * The test-time validator `is_valid`: the root is black, no red node has a
 * red child, and the recursive black-height check succeeds. The check's
 * panics become `None`. The breadth-first colour walk is stated as a
 * recursive predicate over the same nodes.
 */
module RbValidator {
  import opened RbGraph
  import opened RbInvariants

  /**
   * `verify_black_height`: 0 at the sentinel; elsewhere both children's
   * heights must agree (otherwise the check panics, here None) and the node
   * adds one when black.
   */
  ghost function CheckBlackHeight<H>(g: Graph<H>, N: set<H>, sub: map<H, set<H>>, x: H): (h: Option<int>)
    requires Linked(g, N, sub) && (x == g.nil || x in N)
    decreases sub[x]
  {
    if x == g.nil then Some(0)
    else
      assert LinkedAt(g, N, sub, x);
      var l := CheckBlackHeight(g, N, sub, g.slots[x].left);
      var r := CheckBlackHeight(g, N, sub, g.slots[x].right);
      if l.Some? && r.Some? && l.value != -1 && r.value != -1 && l.value == r.value then
        Some(l.value + (if Red(g, x) then 0 else 1))
      else None
  }

  /** `verify_children_color`: every red node below x has black children. */
  ghost predicate CheckChildrenColour<H>(g: Graph<H>, N: set<H>, sub: map<H, set<H>>, x: H)
    requires Linked(g, N, sub) && (x == g.nil || x in N)
    decreases sub[x]
  {
    x != g.nil ==>
      assert LinkedAt(g, N, sub, x);
      var r := g.slots[x];
      && (r.red ==> !Red(g, r.left) && !Red(g, r.right))
      && CheckChildrenColour(g, N, sub, r.left)
      && CheckChildrenColour(g, N, sub, r.right)
  }

  /** `is_valid` passes: black root, no red-red edge, and the black-height check does not panic. */
  ghost predicate IsValid<H>(g: Graph<H>, N: set<H>, sub: map<H, set<H>>)
    requires Linked(g, N, sub)
  {
    && !Red(g, g.root)
    && CheckChildrenColour(g, N, sub, g.root)
    && CheckBlackHeight(g, N, sub, g.root).Some?
  }

  /** Below x, the check returns x's black height counted as the validator counts it (x included, sentinel not). */
  lemma {:induction false} CheckBlackHeightIs<H>(g: Graph<H>, N: set<H>, sub: map<H, set<H>>, bh: map<H, nat>, x: H)
    requires RedBlack(g, N, sub, bh) && (x == g.nil || x in N)
    ensures x in bh && CheckBlackHeight(g, N, sub, x) == Some(bh[x] + Weight(g, x) - 1)
    decreases sub[x]
  {
    if x != g.nil {
      assert LinkedAt(g, N, sub, x);
      assert BlackAt(g, bh, x, g.nil, 0);
      assert BlackEdge(g, bh, x, 0, 0) && BlackEdge(g, bh, x, 1, 0);
      CheckBlackHeightIs(g, N, sub, bh, g.slots[x].left);
      CheckBlackHeightIs(g, N, sub, bh, g.slots[x].right);
    }
  }

  lemma {:induction false} CheckChildrenColourHolds<H>(g: Graph<H>, N: set<H>, sub: map<H, set<H>>, bh: map<H, nat>, x: H)
    requires RedBlack(g, N, sub, bh) && (x == g.nil || x in N)
    ensures CheckChildrenColour(g, N, sub, x)
    decreases sub[x]
  {
    if x != g.nil {
      assert LinkedAt(g, N, sub, x);
      assert RedEdgeAt(g, x, g.nil, g.nil);
      CheckChildrenColourHolds(g, N, sub, bh, g.slots[x].left);
      CheckChildrenColourHolds(g, N, sub, bh, g.slots[x].right);
    }
  }

  /** Every tree meeting the red-black invariants passes the validator. */
  lemma RedBlackIsValid<H>(g: Graph<H>, N: set<H>, sub: map<H, set<H>>, bh: map<H, nat>)
    requires RedBlack(g, N, sub, bh)
    ensures IsValid(g, N, sub)
  {
    CheckBlackHeightIs(g, N, sub, bh, g.root);
    CheckChildrenColourHolds(g, N, sub, bh, g.root);
  }
  /** A height the check accepts is never negative. */
  lemma {:induction false} CheckBlackHeightNat<H>(g: Graph<H>, N: set<H>, sub: map<H, set<H>>, x: H)
    requires Linked(g, N, sub) && (x == g.nil || x in N)
    ensures CheckBlackHeight(g, N, sub, x).Some? ==> CheckBlackHeight(g, N, sub, x).value >= 0
    decreases sub[x]
  {
    if x != g.nil {
      assert LinkedAt(g, N, sub, x);
      CheckBlackHeightNat(g, N, sub, g.slots[x].left);
      CheckBlackHeightNat(g, N, sub, g.slots[x].right);
    }
  }

  /** The black heights the check computes, turned back into the invariant's count (x itself excluded). */
  ghost function CheckedHeights<H>(g: Graph<H>, N: set<H>, sub: map<H, set<H>>): (bh: map<H, nat>)
    requires Linked(g, N, sub)
    ensures bh.Keys == N + {g.nil}
  {
    map x | x in N + {g.nil} ::
      var v := CheckBlackHeight(g, N, sub, x);
      if v.Some? && v.value >= 0 then v.value + 1 - Weight(g, x) else 0
  }

  /** Where both checks pass at x, they pass at every node of x's subtree. */
  lemma {:induction false} ChecksBelow<H>(g: Graph<H>, N: set<H>, sub: map<H, set<H>>, x: H, n: H)
    requires Linked(g, N, sub) && x in N && n in sub[x]
    requires CheckBlackHeight(g, N, sub, x).Some? && CheckChildrenColour(g, N, sub, x)
    ensures n in N && CheckBlackHeight(g, N, sub, n).Some? && CheckChildrenColour(g, N, sub, n)
    decreases sub[x]
  {
    assert LinkedAt(g, N, sub, x);
    var r := g.slots[x];
    if n != x {
      if n in sub[r.left] {
        ChecksBelow(g, N, sub, r.left, n);
      } else {
        ChecksBelow(g, N, sub, r.right, n);
      }
    }
  }

  /** The local conditions at a node where both checks pass: black edges of equal height, and no red-red edge. */
  lemma ChecksLocal<H>(g: Graph<H>, N: set<H>, sub: map<H, set<H>>, n: H)
    requires Linked(g, N, sub) && !Red(g, g.nil) && n in N
    requires CheckBlackHeight(g, N, sub, n).Some? && CheckChildrenColour(g, N, sub, n)
    ensures BlackAt(g, CheckedHeights(g, N, sub), n, g.nil, 0) && RedEdgeAt(g, n, g.nil, g.nil)
  {
    assert LinkedAt(g, N, sub, n);
    var r := g.slots[n];
    CheckBlackHeightNat(g, N, sub, n);
    CheckBlackHeightNat(g, N, sub, r.left);
    CheckBlackHeightNat(g, N, sub, r.right);
  }

  /** Every tree the validator passes meets the red-black invariants, with the heights the check computes. */
  lemma IsValidRedBlack<H>(g: Graph<H>, N: set<H>, sub: map<H, set<H>>)
    requires Linked(g, N, sub) && !Red(g, g.nil) && IsValid(g, N, sub)
    ensures RedBlack(g, N, sub, CheckedHeights(g, N, sub))
  {
    var bh := CheckedHeights(g, N, sub);
    forall n | n in N
      ensures BlackAt(g, bh, n, g.nil, 0) && RedEdgeAt(g, n, g.nil, g.nil)
    {
      ChecksBelow(g, N, sub, g.root, n);
      ChecksLocal(g, N, sub, n);
    }
  }

  /** Over a linked tree with a black sentinel, the validator passes exactly when some black heights make it red-black. */
  lemma ValidatorExact<H>(g: Graph<H>, N: set<H>, sub: map<H, set<H>>)
    requires Linked(g, N, sub) && !Red(g, g.nil)
    ensures IsValid(g, N, sub) <==> exists bh :: RedBlack(g, N, sub, bh)
  {
    if IsValid(g, N, sub) {
      IsValidRedBlack(g, N, sub);
    }
    if bh :| RedBlack(g, N, sub, bh) {
      RedBlackIsValid(g, N, sub, bh);
    }
  }
}
