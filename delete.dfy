/**
 * Deletion, stated over the storage graph: splicing out a node y that has
 * at most one child, and the four cases of the repair loop that pushes the
 * black y took with it back into the tree (red sibling; black sibling with
 * two black children; black sibling whose far child is black; black
 * sibling whose far child is red).
 */
module RbDelete {
  import opened RbGraph
  import opened RbInvariants
  import opened RbRotate

  /** The side of its parent on which n hangs, as the source tests it (`children[0] == n`). */
  function SideOf<H>(g: Graph<H>, n: H): (d: Dir)
    requires n in g.slots && g.slots[n].parent in g.slots
  {
    if g.slots[g.slots[n].parent].left == n then 0 else 1
  }

  /** The child that replaces y: its left child if it has one, else its right child (possibly the sentinel). */
  function SpliceChild<H>(g: Graph<H>, y: H): (x: H)
    requires y in g.slots
  {
    g.slots[y].Child(if g.slots[y].left != g.nil then 0 else 1)
  }

  /**
   * The splice: `x.parent = yp` (written even when x is the sentinel), then
   * x becomes the root (yp the sentinel) or takes y's place among yp's children.
   */
  function Splice<H>(g: Graph<H>, y: H): (g': Graph<H>)
    requires y in g.slots && SpliceChild(g, y) in g.slots && g.slots[y].parent in g.slots
    ensures g'.slots.Keys == g.slots.Keys && g'.nil == g.nil
  {
    var x := SpliceChild(g, y);
    var yp := g.slots[y].parent;
    var g1 := SetParent(g, x, yp);
    if yp == g.nil then g1.(root := x)
    else SetChild(g1, yp, if g1.slots[yp].left == y then 0 else 1, x)
  }

  /** Subtrees after y leaves the tree. */
  ghost function RemoveSub<H>(sub: map<H, set<H>>, y: H): (sub': map<H, set<H>>) {
    map a | a in sub :: sub[a] - {y}
  }

  /** y is a tree node with at most one child. */
  ghost predicate Spliceable<H>(g: Graph<H>, N: set<H>, sub: map<H, set<H>>, y: H) {
    && Linked(g, N, sub) && y in N
    && (g.slots[y].left == g.nil || g.slots[y].right == g.nil)
  }

  lemma SpliceFacts<H>(g: Graph<H>, N: set<H>, sub: map<H, set<H>>, y: H)
    requires Spliceable(g, N, sub, y)
    ensures var x := SpliceChild(g, y);
            var yp := g.slots[y].parent;
            && x in g.slots && yp in g.slots && x != y && yp != y
            && (x == g.nil || x in N) && (yp == g.nil || yp in N)
            && (x != g.nil ==> g.slots[x].parent == y && x != yp)
            && (yp == g.nil <==> y == g.root)
            && (yp != g.nil ==> x != g.root)
            && (yp != g.nil ==> (g.slots[yp].left == y) != (g.slots[yp].right == y))
            && sub[y] == {y} + sub[x]
  {
    assert LinkedAt(g, N, sub, y);
    if y != g.root {
      SubtreeBelowParent(g, N, sub, y);
      assert LinkedAt(g, N, sub, g.slots[y].parent);
    }
    var x := SpliceChild(g, y);
    if x != g.nil {
      assert LinkedAt(g, N, sub, x);
    }
  }

  /** The records after the splice: x hangs from yp, yp holds x where it held y, all else is unchanged. */
  lemma SpliceRecords<H>(g: Graph<H>, N: set<H>, sub: map<H, set<H>>, y: H)
    requires Spliceable(g, N, sub, y)
    ensures SpliceChild(g, y) in g.slots && g.slots[y].parent in g.slots
    ensures var g' := Splice(g, y);
            var x := SpliceChild(g, y);
            var yp := g.slots[y].parent;
            && g'.slots[x] == g.slots[x].(parent := yp)
            && (yp != g.nil ==> g'.slots[yp] == g.slots[yp].WithChild(SideOf(g, y), x))
            && g'.root == (if yp == g.nil then x else g.root)
            && forall m :: m in g.slots && m != x && (m != yp || yp == g.nil) ==> g'.slots[m] == g.slots[m]
  {
    SpliceFacts(g, N, sub, y);
  }

  /** Splicing y out leaves the other nodes linked, with y gone from every subtree. */
  lemma SpliceLinked<H>(g: Graph<H>, N: set<H>, sub: map<H, set<H>>, y: H)
    requires Spliceable(g, N, sub, y)
    ensures SpliceChild(g, y) in g.slots && g.slots[y].parent in g.slots
    ensures Linked(Splice(g, y), N - {y}, RemoveSub(sub, y))
  {
    SpliceFacts(g, N, sub, y);
    SpliceRecords(g, N, sub, y);
    var g' := Splice(g, y);
    var sub' := RemoveSub(sub, y);
    forall n | n in N - {y} ensures LinkedAt(g', N - {y}, sub', n) {
      SpliceLinkedAt(g, N, sub, y, n);
    }
    if g.root != y {
      assert LinkedAt(g, N, sub, g.root);
    }
  }

  /** Splicing y out keeps the descent order: x's subtree moves up into y's place, on the side of yp that held y. */
  lemma SpliceOrdered<H>(g: Graph<H>, N: set<H>, sub: map<H, set<H>>, y: H)
    requires Spliceable(g, N, sub, y) && Ordered(g, N, sub)
    ensures SpliceChild(g, y) in g.slots && g.slots[y].parent in g.slots
    ensures Ordered(Splice(g, y), N - {y}, RemoveSub(sub, y))
  {
    SpliceFacts(g, N, sub, y);
    SpliceRecords(g, N, sub, y);
    var g' := Splice(g, y);
    var sub' := RemoveSub(sub, y);
    var x := SpliceChild(g, y);
    var yp := g.slots[y].parent;
    forall n | n in N - {y} ensures OrderedAt(g', sub', n) {
      assert OrderedAt(g, sub, n);
      assert LinkedAt(g, N, sub, n);
      var r, r' := g.slots[n], g'.slots[n];
      forall c | c == r'.left || c == r'.right
        ensures c in sub' && sub'[c] <= sub[if c == r'.left then r.left else r.right]
      {
        if n == yp && c == x {
          assert LinkedAt(g, N, sub, y);
        }
      }
    }
  }

  lemma SpliceLinkedAt<H>(g: Graph<H>, N: set<H>, sub: map<H, set<H>>, y: H, n: H)
    requires Spliceable(g, N, sub, y) && n in N && n != y
    ensures SpliceChild(g, y) in g.slots && g.slots[y].parent in g.slots
    ensures LinkedAt(Splice(g, y), N - {y}, RemoveSub(sub, y), n)
  {
    SpliceFacts(g, N, sub, y);
    if n == g.slots[y].parent {
      SpliceLinkedParent(g, N, sub, y);
    } else if n == SpliceChild(g, y) {
      SpliceLinkedChild(g, N, sub, y);
    } else {
      SpliceLinkedOther(g, N, sub, y, n);
    }
  }

  lemma SpliceLinkedParent<H>(g: Graph<H>, N: set<H>, sub: map<H, set<H>>, y: H)
    requires Spliceable(g, N, sub, y) && g.slots[y].parent != g.nil
    ensures SpliceChild(g, y) in g.slots && g.slots[y].parent in g.slots
    ensures LinkedAt(Splice(g, y), N - {y}, RemoveSub(sub, y), g.slots[y].parent)
  {
    SpliceFacts(g, N, sub, y);
    SpliceRecords(g, N, sub, y);
    var g' := Splice(g, y);
    var sub' := RemoveSub(sub, y);
    var yp := g.slots[y].parent;
    assert LinkedAt(g, N, sub, y);
    assert LinkedAt(g, N, sub, yp);
    if yp != g.root {
      assert LinkedAt(g, N, sub, g.slots[yp].parent);
    }
    assert sub'[yp] == {yp} + sub'[g'.slots[yp].left] + sub'[g'.slots[yp].right];
  }

  lemma SpliceLinkedChild<H>(g: Graph<H>, N: set<H>, sub: map<H, set<H>>, y: H)
    requires Spliceable(g, N, sub, y) && SpliceChild(g, y) != g.nil
    ensures SpliceChild(g, y) in g.slots && g.slots[y].parent in g.slots
    ensures LinkedAt(Splice(g, y), N - {y}, RemoveSub(sub, y), SpliceChild(g, y))
  {
    SpliceFacts(g, N, sub, y);
    SpliceRecords(g, N, sub, y);
    var x := SpliceChild(g, y);
    var yp := g.slots[y].parent;
    assert LinkedAt(g, N, sub, y);
    assert LinkedAt(g, N, sub, x);
    if yp != g.nil {
      assert LinkedAt(g, N, sub, yp);
    }
  }

  lemma SpliceLinkedOther<H>(g: Graph<H>, N: set<H>, sub: map<H, set<H>>, y: H, n: H)
    requires Spliceable(g, N, sub, y) && n in N && n != y
    requires n != g.slots[y].parent && n != SpliceChild(g, y)
    ensures SpliceChild(g, y) in g.slots && g.slots[y].parent in g.slots
    ensures LinkedAt(Splice(g, y), N - {y}, RemoveSub(sub, y), n)
  {
    SpliceFacts(g, N, sub, y);
    SpliceRecords(g, N, sub, y);
    var g' := Splice(g, y);
    var sub' := RemoveSub(sub, y);
    assert LinkedAt(g, N, sub, n);
    assert LinkedAt(g, N, sub, y);
    var r := g.slots[n];
    assert g'.slots[n] == r;
    assert r.left != y && r.right != y;
    assert sub'[n] == {n} + sub'[r.left] + sub'[r.right];
    if n != g.root {
      var q := r.parent;
      assert LinkedAt(g, N, sub, q);
      assert q != y;
      assert g'.slots[q].left == n || g'.slots[q].right == n;
    }
  }

  /**
   * The repair loop's invariant, with x the node that carries the extra
   * black, xp its parent and xd its side: the edge from xp on side xd is
   * one black short (no edge is short once x is the root), red-red edges
   * may only touch x, and only x may be a red root.
   */
  ghost predicate DeleteInv<H>(g: Graph<H>, N: set<H>, sub: map<H, set<H>>, bh: map<H, nat>, x: H, xp: H, xd: Dir) {
    && Linked(g, N, sub) && !Red(g, g.nil)
    && (x == g.nil || x in N) && x in g.slots
    && (x != g.root ==> xp in N && g.slots[xp].Child(xd) == x && g.slots[x].parent == xp)
    && BlackEdges(g, N, bh, if x == g.root then g.nil else xp, xd)
    && RedEdges(g, N, x, x)
    && (Red(g, g.root) ==> g.root == x)
  }

  /** Splicing out a black node leaves its replacement x one black short: the repair loop's invariant. */
  lemma SpliceBlack<H>(g: Graph<H>, N: set<H>, sub: map<H, set<H>>, bh: map<H, nat>, y: H)
    requires Spliceable(g, N, sub, y) && RedBlack(g, N, sub, bh) && !Red(g, y)
    ensures SpliceChild(g, y) in g.slots && g.slots[y].parent in g.slots
    ensures DeleteInv(Splice(g, y), N - {y}, RemoveSub(sub, y), bh, SpliceChild(g, y), g.slots[y].parent, SideOf(g, y))
  {
    SpliceFacts(g, N, sub, y);
    SpliceRecords(g, N, sub, y);
    SpliceLinked(g, N, sub, y);
    SpliceBlackEdges(g, N, sub, bh, y);
    var x := SpliceChild(g, y);
    var yp := g.slots[y].parent;
    if yp != g.nil {
      assert LinkedAt(g, N, sub, yp);
    }
    if g.root != y {
      assert LinkedAt(g, N, sub, g.root);
    }
  }

  lemma SpliceBlackEdges<H>(g: Graph<H>, N: set<H>, sub: map<H, set<H>>, bh: map<H, nat>, y: H)
    requires Spliceable(g, N, sub, y) && RedBlack(g, N, sub, bh) && !Red(g, y)
    ensures SpliceChild(g, y) in g.slots && g.slots[y].parent in g.slots
    ensures var g' := Splice(g, y);
            var x := SpliceChild(g, y);
            && RedEdges(g', N - {y}, x, x)
            && BlackEdges(g', N - {y}, bh, if x == g'.root then g.nil else g.slots[y].parent, SideOf(g, y))
  {
    SpliceFacts(g, N, sub, y);
    SpliceRecords(g, N, sub, y);
    var g' := Splice(g, y);
    var x := SpliceChild(g, y);
    var yp := g.slots[y].parent;
    assert LinkedAt(g, N, sub, y);
    assert BlackAt(g, bh, y, g.nil, 0);
    assert RedEdgeAt(g, y, g.nil, g.nil) && BlackEdge(g, bh, y, 0, 0) && BlackEdge(g, bh, y, 1, 0);
    if yp != g.nil {
      assert LinkedAt(g, N, sub, yp);
      assert BlackAt(g, bh, yp, g.nil, 0);
      assert BlackEdge(g, bh, yp, 0, 0) && BlackEdge(g, bh, yp, 1, 0);
    }
    forall n | n in N - {y}
      ensures RedEdgeAt(g', n, x, x)
      ensures var dp := if x == g'.root then g.nil else yp;
              BlackEdge(g', bh, n, 0, Extra(n, 0, dp, SideOf(g, y))) && BlackEdge(g', bh, n, 1, Extra(n, 1, dp, SideOf(g, y)))
    {
      assert LinkedAt(g, N, sub, n);
      assert BlackAt(g, bh, n, g.nil, 0);
      assert RedEdgeAt(g, n, g.nil, g.nil) && BlackEdge(g, bh, n, 0, 0) && BlackEdge(g, bh, n, 1, 0);
      SpliceColoursAt(g, g', bh, y, n);
    }
  }

  /** Splicing out a red node keeps a red-black tree. */
  lemma SpliceRed<H>(g: Graph<H>, N: set<H>, sub: map<H, set<H>>, bh: map<H, nat>, y: H)
    requires Spliceable(g, N, sub, y) && RedBlack(g, N, sub, bh) && Red(g, y)
    ensures SpliceChild(g, y) in g.slots && g.slots[y].parent in g.slots
    ensures RedBlack(Splice(g, y), N - {y}, RemoveSub(sub, y), bh)
  {
    SpliceFacts(g, N, sub, y);
    SpliceRecords(g, N, sub, y);
    SpliceLinked(g, N, sub, y);
    var g' := Splice(g, y);
    var x := SpliceChild(g, y);
    var yp := g.slots[y].parent;
    assert LinkedAt(g, N, sub, y);
    assert BlackAt(g, bh, y, g.nil, 0);
    assert RedEdgeAt(g, y, g.nil, g.nil) && BlackEdge(g, bh, y, 0, 0) && BlackEdge(g, bh, y, 1, 0);
    if yp != g.nil {
      assert LinkedAt(g, N, sub, yp);
      assert BlackAt(g, bh, yp, g.nil, 0);
      assert BlackEdge(g, bh, yp, 0, 0) && BlackEdge(g, bh, yp, 1, 0);
    }
    forall n | n in N - {y}
      ensures RedEdgeAt(g', n, g.nil, g.nil)
      ensures BlackAt(g', bh, n, g.nil, 0)
    {
      assert LinkedAt(g, N, sub, n);
      assert BlackAt(g, bh, n, g.nil, 0);
      assert RedEdgeAt(g, n, g.nil, g.nil) && BlackEdge(g, bh, n, 0, 0) && BlackEdge(g, bh, n, 1, 0);
      SpliceColoursAt(g, g', bh, y, n);
    }
    if g.root != y {
      assert LinkedAt(g, N, sub, g.root);
    }
  }

  /** The records the splice leaves behind, stated of any g'. */
  ghost predicate SplicedShape<H>(g: Graph<H>, g': Graph<H>, y: H)
    requires y in g.slots && SpliceChild(g, y) in g.slots && g.slots[y].parent in g.slots
  {
    var x := SpliceChild(g, y);
    var yp := g.slots[y].parent;
    && g'.slots.Keys == g.slots.Keys && g'.nil == g.nil
    && g'.slots[x] == g.slots[x].(parent := yp)
    && (yp != g.nil ==> g'.slots[yp] == g.slots[yp].WithChild(SideOf(g, y), x))
    && g'.root == (if yp == g.nil then x else g.root)
    && forall m :: m in g.slots && m != x && (m != yp || yp == g.nil) ==> g'.slots[m] == g.slots[m]
  }

  /** One node after the splice: its edges are as before, except yp's edge to x, which lost y. */
  lemma SpliceColoursAt<H>(g: Graph<H>, g': Graph<H>, bh: map<H, nat>, y: H, n: H)
    requires y in g.slots && SpliceChild(g, y) in g.slots && g.slots[y].parent in g.slots
    requires SplicedShape(g, g', y)
    requires var x := SpliceChild(g, y);
             var yp := g.slots[y].parent;
             && y != g.nil && x != y && yp != y && (x != g.nil ==> x != yp)
             && (g.slots[y].left == g.nil || g.slots[y].right == g.nil)
             && (yp != g.nil ==> (g.slots[yp].left == y) != (g.slots[yp].right == y))
             && (yp != g.nil ==> x != g.root)
             && !Red(g, g.nil) && g.nil in bh && bh[g.nil] == 0
             && RedEdgeAt(g, y, g.nil, g.nil) && BlackEdge(g, bh, y, 0, 0) && BlackEdge(g, bh, y, 1, 0)
             && (yp != g.nil ==> BlackEdge(g, bh, yp, 0, 0) && BlackEdge(g, bh, yp, 1, 0))
    requires n in g.slots && n != y && n != g.nil
    requires RedEdgeAt(g, n, g.nil, g.nil) && BlackEdge(g, bh, n, 0, 0) && BlackEdge(g, bh, n, 1, 0)
    requires n != g.slots[y].parent ==> g.slots[n].left != y && g.slots[n].right != y
    ensures var x := SpliceChild(g, y);
            var yp := g.slots[y].parent;
            && (Red(g, y) ==> RedEdgeAt(g', n, g.nil, g.nil) && BlackEdge(g', bh, n, 0, 0) && BlackEdge(g', bh, n, 1, 0))
            && (!Red(g, y) ==>
                  var dp := if x == g'.root then g.nil else yp;
                  && RedEdgeAt(g', n, x, x)
                  && BlackEdge(g', bh, n, 0, Extra(n, 0, dp, SideOf(g, y)))
                  && BlackEdge(g', bh, n, 1, Extra(n, 1, dp, SideOf(g, y))))
  {
    var x := SpliceChild(g, y);
    var yp := g.slots[y].parent;
    forall m | m in g.slots ensures Red(g', m) == Red(g, m) {
      if m == x {
      } else if m == yp {
        assert g'.slots[m].red == g.slots[m].red;
      }
    }
    if n == yp {
      assert g'.slots[n].Child(SideOf(g, y)) == x;
      assert g'.slots[n].Child(Flip(SideOf(g, y))) == g.slots[n].Child(Flip(SideOf(g, y)));
    } else {
      assert g'.slots[n].left == g.slots[n].left && g'.slots[n].right == g.slots[n].right;
    }
  }
}
