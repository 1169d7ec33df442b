/**
 * The four cases of deletion's repair loop over the storage graph. x is
 * black and not the root, p is its parent, x hangs on side xd and its
 * sibling w on side `dir = xd ^ 1`; the far nephew is `w.children[dir]`,
 * the near one `w.children[xd]`.
 */
module RbDeleteFixup {
  import opened RbGraph
  import opened RbInvariants
  import opened RbRotate
  import opened RbDelete

  /** The handles a loop iteration reads, and the black heights around them. */
  lemma DeleteFacts<H>(g: Graph<H>, N: set<H>, sub: map<H, set<H>>, bh: map<H, nat>, x: H, p: H, xd: Dir)
    requires DeleteInv(g, N, sub, bh, x, p, xd) && x != g.root && !Red(g, x)
    ensures p in N && p != x && p != g.nil && p in bh && x in bh
    ensures Flip(xd) == (if x == g.slots[p].left then 1 else 0)
    ensures var w := g.slots[p].Child(Flip(xd));
            && w in N && w != x && w != p && g.slots[w].parent == p && w in bh
            && bh[p] == bh[x] + 2 && bh[p] == bh[w] + Weight(g, w)
            && g.slots[w].left in g.slots && g.slots[w].right in g.slots
            && (x != g.nil ==> g.slots[w].left != x && g.slots[w].right != x)
            && g.slots[w].left != p && g.slots[w].right != p
    ensures sub[x] < sub[p]
  {
    assert LinkedAt(g, N, sub, p);
    assert BlackAt(g, bh, p, p, xd);
    assert BlackEdge(g, bh, p, 0, Extra(p, 0, p, xd)) && BlackEdge(g, bh, p, 1, Extra(p, 1, p, xd));
    var w := g.slots[p].Child(Flip(xd));
    assert w != g.nil;
    assert LinkedAt(g, N, sub, w);
    if x != g.nil {
      assert LinkedAt(g, N, sub, x);
    }
  }

  /** Case 1, red sibling: w turns black, p red, rotate(p, dir ^ 1); x keeps its place, its new sibling is black. */
  lemma DeleteRedSibling<H>(g: Graph<H>, N: set<H>, sub: map<H, set<H>>, bh: map<H, nat>, x: H, p: H, xd: Dir, w: H)
    requires DeleteInv(g, N, sub, bh, x, p, xd) && x != g.root && !Red(g, x)
    requires p in g.slots && w == g.slots[p].Child(Flip(xd)) && Red(g, w)
    ensures w in g.slots
    ensures var g2 := SetRed(SetRed(g, w, false), p, true);
            && Rotatable(g2, N, sub, p, xd)
            && var g' := Rotate(g2, p, xd);
            && var sub' := RotateSub(g2, sub, p, xd);
            && DeleteInv(g', N, sub', bh, x, p, xd) && x != g'.root
            && !Red(g', g'.slots[p].Child(Flip(xd))) && sub'[x] == sub[x]
  {
    DeleteFacts(g, N, sub, bh, x, p, xd);
    RedSiblingPrepare(g, N, sub, bh, x, p, xd, w);
    var g2 := SetRed(SetRed(g, w, false), p, true);
    RotateLinked(g2, N, sub, p, xd);
    DeleteRedSiblingEdges(g, N, sub, bh, x, p, xd, w);
    DeleteRedSiblingLinks(g, g2, Rotate(g2, p, xd), bh, x, p, xd, w);
  }

  lemma DeleteRedSiblingLinks<H>(g: Graph<H>, g2: Graph<H>, g': Graph<H>, bh: map<H, nat>, x: H, p: H, xd: Dir, w: H)
    requires RedSiblingSetup(g, g2, g', bh, x, p, xd, w)
    requires g.root in g.slots && !Red(g, g.root) && g.slots[g.root].parent == g.nil && x != g.root
    requires g.slots[x].parent == p
    ensures x in g'.slots && x != g'.root
    ensures g'.slots[p].Child(xd) == x && g'.slots[x].parent == p
    ensures !Red(g', g'.nil) && !Red(g', g'.root) && !Red(g', g'.slots[p].Child(Flip(xd)))
  {
    assert g'.slots[x] == g.slots[x].(red := g'.slots[x].red);
    assert !Red(g', g'.root);
    assert g'.slots[p].Child(Flip(xd)) == Moved(g2, p, xd);
  }

  lemma DeleteRedSiblingEdges<H>(g: Graph<H>, N: set<H>, sub: map<H, set<H>>, bh: map<H, nat>, x: H, p: H, xd: Dir, w: H)
    requires DeleteInv(g, N, sub, bh, x, p, xd) && x != g.root && !Red(g, x)
    requires p in g.slots && w == g.slots[p].Child(Flip(xd)) && Red(g, w)
    ensures w in g.slots
    ensures var g2 := SetRed(SetRed(g, w, false), p, true);
            && Rotatable(g2, N, sub, p, xd)
            && var g' := Rotate(g2, p, xd);
            && RedEdges(g', N, x, x) && BlackEdges(g', N, bh, p, xd)
  {
    RedSiblingPrepare(g, N, sub, bh, x, p, xd, w);
    var g2 := SetRed(SetRed(g, w, false), p, true);
    RedSiblingNodes(g, N, sub, bh, x, p, xd, w);
    DeleteRedSiblingAll(g, g2, Rotate(g2, p, xd), N, bh, x, p, xd, w);
  }

  lemma RedSiblingPrepare<H>(g: Graph<H>, N: set<H>, sub: map<H, set<H>>, bh: map<H, nat>, x: H, p: H, xd: Dir, w: H)
    requires DeleteInv(g, N, sub, bh, x, p, xd) && x != g.root && !Red(g, x)
    requires p in g.slots && w == g.slots[p].Child(Flip(xd)) && Red(g, w)
    ensures w in g.slots
    ensures var g2 := SetRed(SetRed(g, w, false), p, true);
            && Rotatable(g2, N, sub, p, xd) && CanRotate(g2, p, xd)
            && RedSiblingSetup(g, g2, Rotate(g2, p, xd), bh, x, p, xd, w)
  {
    DeleteFacts(g, N, sub, bh, x, p, xd);
    var g1 := SetRed(g, w, false);
    var g2 := SetRed(g1, p, true);
    SetRedSameLinks(g, w, false);
    SetRedSameLinks(g1, p, true);
    SameLinksKeep(g, g1, N, sub);
    SameLinksKeep(g1, g2, N, sub);
    assert LinkedAt(g, N, sub, p);
    assert LinkedAt(g, N, sub, w);
    RotateShape(g2, N, sub, p, xd);
    RotateDistinct(g2, N, sub, p, xd);
    var g' := Rotate(g2, p, xd);
    assert Promoted(g2, p, xd) == w;
    assert BlackAt(g, bh, p, p, xd);
    assert RedEdgeAt(g, p, x, x) && BlackEdge(g, bh, p, 0, Extra(p, 0, p, xd)) && BlackEdge(g, bh, p, 1, Extra(p, 1, p, xd));
    assert BlackAt(g, bh, w, p, xd);
    assert RedEdgeAt(g, w, x, x) && BlackEdge(g, bh, w, 0, 0) && BlackEdge(g, bh, w, 1, 0);
    var q := g.slots[p].parent;
    if q != g.nil {
      assert LinkedAt(g, N, sub, q);
    }
    var b := g.slots[w].Child(xd);
    assert Moved(g2, p, xd) == b;
    assert BlackEdge(g, bh, w, xd, 0);
    assert b != g.nil && b != x && b != p && b != w;
    assert q != p && q != w && (q != g.nil ==> q != x) && q in g.slots;
    assert q != g.nil ==> (g.slots[q].left == p) != (g.slots[q].right == p);
  }

  lemma RedSiblingNodes<H>(g: Graph<H>, N: set<H>, sub: map<H, set<H>>, bh: map<H, nat>, x: H, p: H, xd: Dir, w: H)
    requires DeleteInv(g, N, sub, bh, x, p, xd) && x != g.root && !Red(g, x)
    requires p in g.slots && w == g.slots[p].Child(Flip(xd))
    ensures forall n :: n in N ==> RedSiblingNode(g, bh, x, p, xd, w, n)
  {
    DeleteFacts(g, N, sub, bh, x, p, xd);
    forall n | n in N ensures RedSiblingNode(g, bh, x, p, xd, w, n) {
      assert LinkedAt(g, N, sub, n);
      assert RedEdgeAt(g, n, x, x);
      assert BlackAt(g, bh, n, p, xd);
      assert BlackEdge(g, bh, n, 0, Extra(n, 0, p, xd)) && BlackEdge(g, bh, n, 1, Extra(n, 1, p, xd));
    }
  }

  lemma DeleteRedSiblingAll<H>(g: Graph<H>, g2: Graph<H>, g': Graph<H>, N: set<H>, bh: map<H, nat>, x: H, p: H, xd: Dir, w: H)
    requires RedSiblingSetup(g, g2, g', bh, x, p, xd, w)
    requires forall n :: n in N ==> RedSiblingNode(g, bh, x, p, xd, w, n)
    ensures RedEdges(g', N, x, x) && BlackEdges(g', N, bh, p, xd)
  {
    forall n | n in N
      ensures RedEdgeAt(g', n, x, x)
      ensures BlackAt(g', bh, n, p, xd)
    {
      DeleteRedSiblingAt(g, g2, g', bh, x, p, xd, w, n);
    }
  }

  ghost predicate RedSiblingSetup<H>(g: Graph<H>, g2: Graph<H>, g': Graph<H>, bh: map<H, nat>, x: H, p: H, xd: Dir, w: H) {
    && p in g.slots && w in g.slots && x in g.slots && g2 == SetRed(SetRed(g, w, false), p, true)
    && RotatedShape(g2, g', p, xd) && Promoted(g2, p, xd) == w
    && g.slots[p].Child(xd) == x && g.slots[w].parent == p
    && p != x && w != x && w != p && p != g.nil && w != g.nil
    && Moved(g2, p, xd) != x && Moved(g2, p, xd) != p && Moved(g2, p, xd) != w
    && g.slots[p].parent != p && g.slots[p].parent != w && (g.slots[p].parent != g.nil ==> g.slots[p].parent != x)
    && g.slots[p].parent in g.slots
    && (g.slots[p].parent != g.nil ==>
          (g.slots[g.slots[p].parent].left == p) != (g.slots[g.slots[p].parent].right == p))
    && Red(g, w) && !Red(g, p) && !Red(g, x) && !Red(g, g.nil) && g.nil in bh && bh[g.nil] == 0
    && RedEdgeAt(g, w, x, x) && BlackEdge(g, bh, w, 0, 0) && BlackEdge(g, bh, w, 1, 0)
    && BlackEdge(g, bh, p, 0, Extra(p, 0, p, xd)) && BlackEdge(g, bh, p, 1, Extra(p, 1, p, xd))
  }

  ghost predicate RedSiblingNode<H>(g: Graph<H>, bh: map<H, nat>, x: H, p: H, xd: Dir, w: H, n: H)
    requires p in g.slots
  {
    && n in g.slots && n != g.nil
    && RedEdgeAt(g, n, x, x)
    && BlackEdge(g, bh, n, 0, Extra(n, 0, p, xd)) && BlackEdge(g, bh, n, 1, Extra(n, 1, p, xd))
    && (n != g.slots[p].parent ==> g.slots[n].left != p && g.slots[n].right != p)
    && (n != p ==> g.slots[n].left != w && g.slots[n].right != w)
  }

  lemma DeleteRedSiblingAt<H>(g: Graph<H>, g2: Graph<H>, g': Graph<H>, bh: map<H, nat>, x: H, p: H, xd: Dir, w: H, n: H)
    requires RedSiblingSetup(g, g2, g', bh, x, p, xd, w) && RedSiblingNode(g, bh, x, p, xd, w, n)
    ensures RedEdgeAt(g', n, x, x)
    ensures BlackEdge(g', bh, n, 0, Extra(n, 0, p, xd)) && BlackEdge(g', bh, n, 1, Extra(n, 1, p, xd))
  {
    var b := Moved(g2, p, xd);
    assert b == g.slots[w].Child(xd);
    if n == p {
      assert g'.slots[p].Child(xd) == x;
      assert g'.slots[p].Child(Flip(xd)) == b;
      assert RedEdgeAt(g', n, x, x);
      assert BlackEdge(g', bh, n, xd, 1);
      assert BlackEdge(g', bh, n, Flip(xd), 0);
    } else if n == w {
      assert RedEdgeAt(g', n, x, x);
      assert BlackEdge(g', bh, n, xd, 0);
      assert BlackEdge(g', bh, n, Flip(xd), 0);
    } else if n == g.slots[p].parent {
      assert RedEdgeAt(g', n, x, x);
      assert BlackEdge(g', bh, n, 0, 0);
      assert BlackEdge(g', bh, n, 1, 0);
    } else {
      RotatedChildrenElsewhere(g2, g', p, xd, n);
      assert RedEdgeAt(g', n, x, x);
      assert BlackEdge(g', bh, n, 0, 0);
      assert BlackEdge(g', bh, n, 1, 0);
    }
  }


  /** Case 2, black sibling with black children: w turns red and the missing black moves up to p. */
  lemma DeleteBlackNephews<H>(g: Graph<H>, N: set<H>, sub: map<H, set<H>>, bh: map<H, nat>, x: H, p: H, xd: Dir, w: H)
    requires DeleteInv(g, N, sub, bh, x, p, xd) && x != g.root && !Red(g, x)
    requires p in g.slots && w == g.slots[p].Child(Flip(xd)) && w in g.slots && !Red(g, w)
    requires !Red(g, g.slots[w].left) && !Red(g, g.slots[w].right)
    ensures p in N && g.slots[p].parent in g.slots && p in bh && bh[p] >= 2
    ensures DeleteInv(SetRed(g, w, true), N, sub, bh[p := bh[p] - 1], p, g.slots[p].parent, SideOf(g, p))
    ensures sub[x] < sub[p]
  {
    DeleteFacts(g, N, sub, bh, x, p, xd);
    assert LinkedAt(g, N, sub, p);
    var g' := SetRed(g, w, true);
    SetRedSameLinks(g, w, true);
    SameLinksKeep(g, g', N, sub);
    BlackNephewsEdges(g, N, sub, bh, x, p, xd, w);
    assert !Red(g', g'.root) by {
      assert RedEdgeAt(g, p, x, x);
      if g.root != p {
        assert g.root != w;
      }
    }
  }

  lemma BlackNephewsEdges<H>(g: Graph<H>, N: set<H>, sub: map<H, set<H>>, bh: map<H, nat>, x: H, p: H, xd: Dir, w: H)
    requires DeleteInv(g, N, sub, bh, x, p, xd) && x != g.root && !Red(g, x)
    requires p in g.slots && w == g.slots[p].Child(Flip(xd)) && w in g.slots && !Red(g, w)
    requires !Red(g, g.slots[w].left) && !Red(g, g.slots[w].right)
    ensures p in N && g.slots[p].parent in g.slots && p in bh && bh[p] >= 2
    ensures var g' := SetRed(g, w, true);
            && RedEdges(g', N, p, p)
            && BlackEdges(g', N, bh[p := bh[p] - 1], if p == g.root then g.nil else g.slots[p].parent, SideOf(g, p))
  {
    DeleteFacts(g, N, sub, bh, x, p, xd);
    assert LinkedAt(g, N, sub, p);
    assert LinkedAt(g, N, sub, w);
    var q := g.slots[p].parent;
    if q != g.nil {
      assert LinkedAt(g, N, sub, q);
      assert q != x;
    } else {
      assert p == g.root;
    }
    assert BlackNephewsSetup(g, bh, x, p, xd, w);
    forall n | n in N ensures BlackNephewsNode(g, bh, x, p, w, n) {
      assert LinkedAt(g, N, sub, n);
      assert RedEdgeAt(g, n, x, x);
      assert BlackAt(g, bh, n, p, xd);
      assert BlackEdge(g, bh, n, 0, Extra(n, 0, p, xd)) && BlackEdge(g, bh, n, 1, Extra(n, 1, p, xd));
    }
    BlackNephewsAll(g, N, bh, x, p, xd, w);
  }

  ghost predicate BlackNephewsSetup<H>(g: Graph<H>, bh: map<H, nat>, x: H, p: H, xd: Dir, w: H) {
    && p in g.slots && w in g.slots && x in g.slots && g.nil in g.slots
    && g.slots[p].Child(xd) == x && g.slots[p].Child(Flip(xd)) == w && g.slots[w].parent == p
    && p != x && w != x && w != p && p != g.nil && w != g.nil
    && g.slots[w].left in g.slots && g.slots[w].right in g.slots
    && !Red(g, w) && !Red(g, x) && !Red(g, g.nil) && !Red(g, g.slots[w].left) && !Red(g, g.slots[w].right)
    && g.nil in bh && bh[g.nil] == 0 && p in bh && bh[p] >= 2
    && BlackEdge(g, bh, p, 0, Extra(p, 0, p, xd)) && BlackEdge(g, bh, p, 1, Extra(p, 1, p, xd))
    && var q := g.slots[p].parent;
    && q in g.slots && q != p && q != w
    && (q != g.nil ==> q != x && (g.slots[q].left == p) != (g.slots[q].right == p))
  }

  ghost predicate BlackNephewsNode<H>(g: Graph<H>, bh: map<H, nat>, x: H, p: H, w: H, n: H)
    requires p in g.slots
  {
    && n in g.slots && n != g.nil
    && RedEdgeAt(g, n, x, x)
    && (n != g.slots[p].parent ==> g.slots[n].left != p && g.slots[n].right != p)
    && (n != p ==> g.slots[n].left != w && g.slots[n].right != w)
  }

  lemma BlackNephewsAll<H>(g: Graph<H>, N: set<H>, bh: map<H, nat>, x: H, p: H, xd: Dir, w: H)
    requires BlackNephewsSetup(g, bh, x, p, xd, w)
    requires forall n :: n in N ==> BlackNephewsNode(g, bh, x, p, w, n)
    requires forall n :: n in N ==> BlackAt(g, bh, n, p, xd)
    requires g.nil in bh && bh[g.nil] == 0
    ensures var g' := SetRed(g, w, true);
            && RedEdges(g', N, p, p)
            && BlackEdges(g', N, bh[p := bh[p] - 1], g.slots[p].parent, SideOf(g, p))
  {
    forall n | n in N
      ensures var g' := SetRed(g, w, true);
              && RedEdgeAt(g', n, p, p)
              && BlackEdge(g', bh[p := bh[p] - 1], n, 0, Extra(n, 0, g.slots[p].parent, SideOf(g, p)))
              && BlackEdge(g', bh[p := bh[p] - 1], n, 1, Extra(n, 1, g.slots[p].parent, SideOf(g, p)))
    {
      BlackNephewsAt(g, bh, x, p, xd, w, n);
    }
  }

  lemma BlackNephewsAt<H>(g: Graph<H>, bh: map<H, nat>, x: H, p: H, xd: Dir, w: H, n: H)
    requires BlackNephewsSetup(g, bh, x, p, xd, w) && BlackNephewsNode(g, bh, x, p, w, n)
    requires BlackEdge(g, bh, n, 0, Extra(n, 0, p, xd)) && BlackEdge(g, bh, n, 1, Extra(n, 1, p, xd))
    ensures var g' := SetRed(g, w, true);
            && RedEdgeAt(g', n, p, p)
            && BlackEdge(g', bh[p := bh[p] - 1], n, 0, Extra(n, 0, g.slots[p].parent, SideOf(g, p)))
            && BlackEdge(g', bh[p := bh[p] - 1], n, 1, Extra(n, 1, g.slots[p].parent, SideOf(g, p)))
  {
  }

  /** Case 3, black sibling whose far child is black and near child red: the near child
      turns black, w red, rotate(w, dir); the new sibling is black with a red far child. */
  lemma DeleteFarBlack<H>(g: Graph<H>, N: set<H>, sub: map<H, set<H>>, bh: map<H, nat>, x: H, p: H, xd: Dir, w: H)
    requires DeleteInv(g, N, sub, bh, x, p, xd) && x != g.root && !Red(g, x)
    requires p in g.slots && w == g.slots[p].Child(Flip(xd)) && w in g.slots && !Red(g, w)
    requires !Red(g, g.slots[w].Child(Flip(xd))) && Red(g, g.slots[w].Child(xd))
    ensures var wo := g.slots[w].Child(xd);
            && wo in g.slots
            && var g2 := SetRed(SetRed(g, wo, false), w, true);
            && Rotatable(g2, N, sub, w, Flip(xd))
            && var g' := Rotate(g2, w, Flip(xd));
            && var sub' := RotateSub(g2, sub, w, Flip(xd));
            && DeleteInv(g', N, sub', bh, x, p, xd) && x != g'.root
            && g'.slots[p].Child(Flip(xd)) == wo && !Red(g', wo)
            && g'.slots[wo].Child(Flip(xd)) == w && Red(g', w) && sub'[x] == sub[x]
  {
    DeleteFacts(g, N, sub, bh, x, p, xd);
    var wo := g.slots[w].Child(xd);
    FarBlackPrepare(g, N, sub, bh, x, p, xd, w);
    var g2 := SetRed(SetRed(g, wo, false), w, true);
    RotateLinked(g2, N, sub, w, Flip(xd));
    FarBlackEdges(g, N, sub, bh, x, p, xd, w);
    FarBlackLinks(g, g2, Rotate(g2, w, Flip(xd)), bh, x, p, xd, w, wo);
  }

  lemma FarBlackLinks<H>(g: Graph<H>, g2: Graph<H>, g': Graph<H>, bh: map<H, nat>, x: H, p: H, xd: Dir, w: H, wo: H)
    requires FarBlackSetup(g, g2, g', bh, x, p, xd, w, wo)
    requires g.root in g.slots && !Red(g, g.root) && g.slots[g.root].parent == g.nil && x != g.root
    requires g.slots[x].parent == p
    ensures x in g'.slots && x != g'.root
    ensures g'.slots[p].Child(xd) == x && g'.slots[x].parent == p
    ensures !Red(g', g'.nil) && !Red(g', g'.root)
    ensures g'.slots[p].Child(Flip(xd)) == wo && !Red(g', wo) && g'.slots[wo].Child(Flip(xd)) == w && Red(g', w)
  {
    assert g'.slots[x] == g.slots[x].(red := g'.slots[x].red);
    assert g.root != w && g.root != wo;
    assert g'.root == g.root && !Red(g', g'.root);
  }

  lemma FarBlackEdges<H>(g: Graph<H>, N: set<H>, sub: map<H, set<H>>, bh: map<H, nat>, x: H, p: H, xd: Dir, w: H)
    requires DeleteInv(g, N, sub, bh, x, p, xd) && x != g.root && !Red(g, x)
    requires p in g.slots && w == g.slots[p].Child(Flip(xd)) && w in g.slots && !Red(g, w)
    requires !Red(g, g.slots[w].Child(Flip(xd))) && Red(g, g.slots[w].Child(xd))
    ensures var wo := g.slots[w].Child(xd);
            && wo in g.slots
            && var g2 := SetRed(SetRed(g, wo, false), w, true);
            && Rotatable(g2, N, sub, w, Flip(xd))
            && var g' := Rotate(g2, w, Flip(xd));
            && RedEdges(g', N, x, x) && BlackEdges(g', N, bh, p, xd)
  {
    FarBlackPrepare(g, N, sub, bh, x, p, xd, w);
    var wo := g.slots[w].Child(xd);
    var g2 := SetRed(SetRed(g, wo, false), w, true);
    FarBlackNodes(g, N, sub, bh, x, p, xd, w, wo);
    FarBlackAll(g, g2, Rotate(g2, w, Flip(xd)), N, bh, x, p, xd, w, wo);
  }

  lemma FarBlackPrepare<H>(g: Graph<H>, N: set<H>, sub: map<H, set<H>>, bh: map<H, nat>, x: H, p: H, xd: Dir, w: H)
    requires DeleteInv(g, N, sub, bh, x, p, xd) && x != g.root && !Red(g, x)
    requires p in g.slots && w == g.slots[p].Child(Flip(xd)) && w in g.slots && !Red(g, w)
    requires !Red(g, g.slots[w].Child(Flip(xd))) && Red(g, g.slots[w].Child(xd))
    ensures var wo := g.slots[w].Child(xd);
            && wo in g.slots
            && var g2 := SetRed(SetRed(g, wo, false), w, true);
            && Rotatable(g2, N, sub, w, Flip(xd)) && CanRotate(g2, w, Flip(xd))
            && FarBlackSetup(g, g2, Rotate(g2, w, Flip(xd)), bh, x, p, xd, w, wo)
  {
    DeleteFacts(g, N, sub, bh, x, p, xd);
    FarBlackFacts(g, N, sub, bh, x, p, xd, w);
    var wo := g.slots[w].Child(xd);
    var g1 := SetRed(g, wo, false);
    var g2 := SetRed(g1, w, true);
    SetRedSameLinks(g, wo, false);
    SetRedSameLinks(g1, w, true);
    SameLinksKeep(g, g1, N, sub);
    SameLinksKeep(g1, g2, N, sub);
    RotateShape(g2, N, sub, w, Flip(xd));
    assert Promoted(g2, w, Flip(xd)) == wo;
    assert Moved(g2, w, Flip(xd)) == g.slots[wo].Child(Flip(xd));
  }

  /** The handles case 3 touches: the near nephew wo and its inner child b, which moves to w. */
  lemma FarBlackFacts<H>(g: Graph<H>, N: set<H>, sub: map<H, set<H>>, bh: map<H, nat>, x: H, p: H, xd: Dir, w: H)
    requires DeleteInv(g, N, sub, bh, x, p, xd) && x != g.root && !Red(g, x)
    requires p in g.slots && w == g.slots[p].Child(Flip(xd)) && w in g.slots && !Red(g, w)
    requires !Red(g, g.slots[w].Child(Flip(xd))) && Red(g, g.slots[w].Child(xd))
    ensures var wo := g.slots[w].Child(xd);
            && wo in N && wo in g.slots && wo != g.nil && g.slots[wo].parent == w
            && var b := g.slots[wo].Child(Flip(xd));
            && b in g.slots && b != w && b != wo && b != p && (x != g.nil ==> b != x) && x != wo
            && !Red(g, b) && g.slots[w].Child(Flip(xd)) in g.slots && g.slots[wo].Child(xd) in g.slots
            && BlackEdge(g, bh, p, 0, Extra(p, 0, p, xd)) && BlackEdge(g, bh, p, 1, Extra(p, 1, p, xd))
            && BlackEdge(g, bh, w, 0, 0) && BlackEdge(g, bh, w, 1, 0)
            && BlackEdge(g, bh, wo, 0, 0) && BlackEdge(g, bh, wo, 1, 0)
  {
    DeleteFacts(g, N, sub, bh, x, p, xd);
    var wo := g.slots[w].Child(xd);
    assert LinkedAt(g, N, sub, p);
    assert LinkedAt(g, N, sub, w);
    assert wo != g.nil;
    assert LinkedAt(g, N, sub, wo);
    var b := g.slots[wo].Child(Flip(xd));
    assert RedEdgeAt(g, wo, x, x) && !Red(g, b);
    assert BlackAt(g, bh, p, p, xd);
    assert BlackEdge(g, bh, p, 0, Extra(p, 0, p, xd)) && BlackEdge(g, bh, p, 1, Extra(p, 1, p, xd));
    assert BlackAt(g, bh, w, p, xd);
    assert BlackEdge(g, bh, w, 0, 0) && BlackEdge(g, bh, w, 1, 0);
    assert BlackAt(g, bh, wo, p, xd);
    assert BlackEdge(g, bh, wo, 0, 0) && BlackEdge(g, bh, wo, 1, 0);
    if b != g.nil {
      assert LinkedAt(g, N, sub, b);
      assert b in sub[wo] && sub[wo] <= sub[w];
      if x != g.nil {
        assert LinkedAt(g, N, sub, x);
        assert x in sub[x] && sub[x] !! sub[w];
      }
    }
  }

  ghost predicate FarBlackSetup<H>(g: Graph<H>, g2: Graph<H>, g': Graph<H>, bh: map<H, nat>, x: H, p: H, xd: Dir, w: H, wo: H) {
    && p in g.slots && w in g.slots && wo in g.slots && x in g.slots && g.nil in g.slots
    && g2 == SetRed(SetRed(g, wo, false), w, true)
    && RotatedShape(g2, g', w, Flip(xd)) && Promoted(g2, w, Flip(xd)) == wo
    && g.slots[p].Child(xd) == x && g.slots[p].Child(Flip(xd)) == w && g.slots[w].parent == p
    && g.slots[w].Child(xd) == wo && g.slots[wo].parent == w
    && p != x && w != x && wo != x && w != p && wo != p && wo != w
    && p != g.nil && w != g.nil && wo != g.nil
    && var b := Moved(g2, w, Flip(xd));
    && b in g.slots && b != w && b != wo && b != p && (x != g.nil ==> b != x)
    && g.slots[w].Child(Flip(xd)) in g.slots && g.slots[wo].Child(xd) in g.slots
    && !Red(g, w) && Red(g, wo) && !Red(g, x) && !Red(g, g.nil) && !Red(g, b)
    && !Red(g, g.slots[w].Child(Flip(xd)))
    && g.nil in bh && bh[g.nil] == 0
    && BlackEdge(g, bh, p, 0, Extra(p, 0, p, xd)) && BlackEdge(g, bh, p, 1, Extra(p, 1, p, xd))
    && BlackEdge(g, bh, w, 0, 0) && BlackEdge(g, bh, w, 1, 0)
    && BlackEdge(g, bh, wo, 0, 0) && BlackEdge(g, bh, wo, 1, 0)
  }

  ghost predicate FarBlackNode<H>(g: Graph<H>, bh: map<H, nat>, x: H, p: H, xd: Dir, w: H, wo: H, n: H) {
    && n in g.slots && n != g.nil
    && RedEdgeAt(g, n, x, x)
    && BlackEdge(g, bh, n, 0, Extra(n, 0, p, xd)) && BlackEdge(g, bh, n, 1, Extra(n, 1, p, xd))
    && (n != p ==> g.slots[n].left != w && g.slots[n].right != w)
    && (n != w ==> g.slots[n].left != wo && g.slots[n].right != wo)
  }

  lemma FarBlackNodes<H>(g: Graph<H>, N: set<H>, sub: map<H, set<H>>, bh: map<H, nat>, x: H, p: H, xd: Dir, w: H, wo: H)
    requires DeleteInv(g, N, sub, bh, x, p, xd) && x != g.root && !Red(g, x)
    requires p in g.slots && w == g.slots[p].Child(Flip(xd)) && w in g.slots && wo == g.slots[w].Child(xd) && wo != g.nil
    ensures forall n :: n in N ==> FarBlackNode(g, bh, x, p, xd, w, wo, n)
  {
    DeleteFacts(g, N, sub, bh, x, p, xd);
    assert LinkedAt(g, N, sub, w);
    forall n | n in N ensures FarBlackNode(g, bh, x, p, xd, w, wo, n) {
      assert LinkedAt(g, N, sub, n);
      assert RedEdgeAt(g, n, x, x);
      assert BlackAt(g, bh, n, p, xd);
      assert BlackEdge(g, bh, n, 0, Extra(n, 0, p, xd)) && BlackEdge(g, bh, n, 1, Extra(n, 1, p, xd));
    }
  }

  lemma FarBlackAll<H>(g: Graph<H>, g2: Graph<H>, g': Graph<H>, N: set<H>, bh: map<H, nat>, x: H, p: H, xd: Dir, w: H, wo: H)
    requires FarBlackSetup(g, g2, g', bh, x, p, xd, w, wo)
    requires forall n :: n in N ==> FarBlackNode(g, bh, x, p, xd, w, wo, n)
    ensures RedEdges(g', N, x, x) && BlackEdges(g', N, bh, p, xd)
  {
    forall n | n in N
      ensures RedEdgeAt(g', n, x, x)
      ensures BlackAt(g', bh, n, p, xd)
    {
      FarBlackAt(g, g2, g', bh, x, p, xd, w, wo, n);
    }
  }

  lemma FarBlackAt<H>(g: Graph<H>, g2: Graph<H>, g': Graph<H>, bh: map<H, nat>, x: H, p: H, xd: Dir, w: H, wo: H, n: H)
    requires FarBlackSetup(g, g2, g', bh, x, p, xd, w, wo) && FarBlackNode(g, bh, x, p, xd, w, wo, n)
    ensures RedEdgeAt(g', n, x, x)
    ensures BlackEdge(g', bh, n, 0, Extra(n, 0, p, xd)) && BlackEdge(g', bh, n, 1, Extra(n, 1, p, xd))
  {
    var b := Moved(g2, w, Flip(xd));
    if n == p {
      assert g'.slots[p].Child(xd) == x;
      assert g'.slots[p].Child(Flip(xd)) == wo;
      assert RedEdgeAt(g', n, x, x);
      assert BlackEdge(g', bh, n, xd, 1);
      assert BlackEdge(g', bh, n, Flip(xd), 0);
    } else if n == w {
      assert g'.slots[w].Child(xd) == b;
      assert RedEdgeAt(g', n, x, x);
      assert BlackEdge(g', bh, n, xd, 0);
      assert BlackEdge(g', bh, n, Flip(xd), 0);
    } else if n == wo {
      assert g'.slots[wo].Child(Flip(xd)) == w;
      assert RedEdgeAt(g', n, x, x);
      assert BlackEdge(g', bh, n, xd, 0);
      assert BlackEdge(g', bh, n, Flip(xd), 0);
    } else {
      RotatedChildrenElsewhere(g2, g', w, Flip(xd), n);
      assert RedEdgeAt(g', n, x, x);
      assert BlackEdge(g', bh, n, 0, Extra(n, 0, p, xd));
      assert BlackEdge(g', bh, n, 1, Extra(n, 1, p, xd));
    }
  }

  /** The colours case 4 writes: w takes p's colour, p and the far nephew turn black. */
  function FarRedColours<H>(g: Graph<H>, p: H, w: H, wc: H): (g': Graph<H>)
    requires p in g.slots && w in g.slots && wc in g.slots
  {
    SetRed(SetRed(SetRed(g, w, Red(g, p)), p, false), wc, false)
  }

  /** Case 4, black sibling with a red far child: w takes p's colour, p and the far child turn
      black, rotate(p, dir ^ 1). The missing black is restored, p and w exchange black heights,
      and the loop ends at the root. */
  lemma DeleteFarRed<H>(g: Graph<H>, N: set<H>, sub: map<H, set<H>>, bh: map<H, nat>, x: H, p: H, xd: Dir, w: H)
    requires DeleteInv(g, N, sub, bh, x, p, xd) && x != g.root && !Red(g, x)
    requires p in g.slots && w == g.slots[p].Child(Flip(xd)) && w in g.slots && !Red(g, w)
    requires Red(g, g.slots[w].Child(Flip(xd)))
    ensures p in bh && w in bh
    ensures var wc := g.slots[w].Child(Flip(xd));
            && wc in g.slots
            && var g3 := FarRedColours(g, p, w, wc);
            && Rotatable(g3, N, sub, p, xd)
            && var g' := Rotate(g3, p, xd);
            && DeleteInv(g', N, RotateSub(g3, sub, p, xd), bh[p := bh[w]][w := bh[p]], g'.root, g.nil, xd)
  {
    FarRedPrepare(g, N, sub, bh, x, p, xd, w);
    var wc := g.slots[w].Child(Flip(xd));
    var g3 := FarRedColours(g, p, w, wc);
    var g' := Rotate(g3, p, xd);
    RotateLinked(g3, N, sub, p, xd);
    FarRedEdges(g, N, sub, bh, x, p, xd, w);
    assert !Red(g', g'.nil);
  }

  lemma FarRedEdges<H>(g: Graph<H>, N: set<H>, sub: map<H, set<H>>, bh: map<H, nat>, x: H, p: H, xd: Dir, w: H)
    requires DeleteInv(g, N, sub, bh, x, p, xd) && x != g.root && !Red(g, x)
    requires p in g.slots && w == g.slots[p].Child(Flip(xd)) && w in g.slots && !Red(g, w)
    requires Red(g, g.slots[w].Child(Flip(xd)))
    ensures p in bh && w in bh
    ensures var wc := g.slots[w].Child(Flip(xd));
            && wc in g.slots
            && var g3 := FarRedColours(g, p, w, wc);
            && Rotatable(g3, N, sub, p, xd)
            && var g' := Rotate(g3, p, xd);
            && RedEdges(g', N, g'.root, g'.root) && BlackEdges(g', N, bh[p := bh[w]][w := bh[p]], g.nil, xd)
  {
    FarRedPrepare(g, N, sub, bh, x, p, xd, w);
    var wc := g.slots[w].Child(Flip(xd));
    var g3 := FarRedColours(g, p, w, wc);
    FarRedNodes(g, N, sub, bh, x, p, xd, w, wc);
    FarRedAll(g, g3, Rotate(g3, p, xd), N, bh, x, p, xd, w, wc);
  }

  lemma FarRedPrepare<H>(g: Graph<H>, N: set<H>, sub: map<H, set<H>>, bh: map<H, nat>, x: H, p: H, xd: Dir, w: H)
    requires DeleteInv(g, N, sub, bh, x, p, xd) && x != g.root && !Red(g, x)
    requires p in g.slots && w == g.slots[p].Child(Flip(xd)) && w in g.slots && !Red(g, w)
    requires Red(g, g.slots[w].Child(Flip(xd)))
    ensures var wc := g.slots[w].Child(Flip(xd));
            && wc in g.slots
            && var g3 := FarRedColours(g, p, w, wc);
            && Rotatable(g3, N, sub, p, xd) && CanRotate(g3, p, xd)
            && FarRedSetup(g, g3, Rotate(g3, p, xd), bh, x, p, xd, w, wc)
  {
    DeleteFacts(g, N, sub, bh, x, p, xd);
    FarRedFacts(g, N, sub, bh, x, p, xd, w);
    var wc := g.slots[w].Child(Flip(xd));
    var g1 := SetRed(g, w, Red(g, p));
    var g2 := SetRed(g1, p, false);
    var g3 := SetRed(g2, wc, false);
    SetRedSameLinks(g, w, Red(g, p));
    SetRedSameLinks(g1, p, false);
    SetRedSameLinks(g2, wc, false);
    SameLinksKeep(g, g1, N, sub);
    SameLinksKeep(g1, g2, N, sub);
    SameLinksKeep(g2, g3, N, sub);
    RotateShape(g3, N, sub, p, xd);
    assert Promoted(g3, p, xd) == w;
    assert Moved(g3, p, xd) == g.slots[w].Child(xd);
  }

  /** The handles case 4 touches: the far nephew wc, the near one b (which moves to p) and p's parent q. */
  lemma FarRedFacts<H>(g: Graph<H>, N: set<H>, sub: map<H, set<H>>, bh: map<H, nat>, x: H, p: H, xd: Dir, w: H)
    requires DeleteInv(g, N, sub, bh, x, p, xd) && x != g.root && !Red(g, x)
    requires p in g.slots && w == g.slots[p].Child(Flip(xd)) && w in g.slots && !Red(g, w)
    requires Red(g, g.slots[w].Child(Flip(xd)))
    ensures var wc := g.slots[w].Child(Flip(xd));
            && var b := g.slots[w].Child(xd);
            && var q := g.slots[p].parent;
            && wc in N && wc in g.slots && wc != g.nil && g.slots[wc].parent == w
            && wc != p && wc != x && wc != w
            && b in g.slots && b != p && b != w && b != wc && (x != g.nil ==> b != x)
            && q in g.slots && q != p && q != w && q != wc
            && (q != g.nil ==> q != x && q != b && (g.slots[q].left == p) != (g.slots[q].right == p))
            && (q == g.nil <==> p == g.root)
            && p in bh && w in bh && wc in bh && bh[w] == bh[wc]
            && BlackEdge(g, bh, p, 0, Extra(p, 0, p, xd)) && BlackEdge(g, bh, p, 1, Extra(p, 1, p, xd))
            && BlackEdge(g, bh, w, 0, 0) && BlackEdge(g, bh, w, 1, 0)
  {
    DeleteFacts(g, N, sub, bh, x, p, xd);
    var wc := g.slots[w].Child(Flip(xd));
    var b := g.slots[w].Child(xd);
    var q := g.slots[p].parent;
    assert LinkedAt(g, N, sub, p);
    assert LinkedAt(g, N, sub, w);
    assert wc != g.nil;
    assert LinkedAt(g, N, sub, wc);
    assert BlackAt(g, bh, p, p, xd);
    assert BlackEdge(g, bh, p, 0, Extra(p, 0, p, xd)) && BlackEdge(g, bh, p, 1, Extra(p, 1, p, xd));
    assert BlackAt(g, bh, w, p, xd);
    assert BlackEdge(g, bh, w, 0, 0) && BlackEdge(g, bh, w, 1, 0);
    assert wc in sub[w] && sub[w] <= sub[p];
    if x != g.nil {
      assert LinkedAt(g, N, sub, x);
      assert x in sub[x] && sub[x] !! sub[w];
    }
    if b != g.nil {
      assert LinkedAt(g, N, sub, b);
      assert b in sub[w];
    }
    if q != g.nil {
      assert LinkedAt(g, N, sub, q);
      assert p in sub[p] && sub[p] <= sub[q];
    } else {
      assert p == g.root;
    }
  }

  ghost predicate FarRedSetup<H>(g: Graph<H>, g3: Graph<H>, g': Graph<H>, bh: map<H, nat>, x: H, p: H, xd: Dir, w: H, wc: H) {
    && p in g.slots && w in g.slots && wc in g.slots && x in g.slots && g.nil in g.slots
    && g3 == FarRedColours(g, p, w, wc)
    && RotatedShape(g3, g', p, xd) && Promoted(g3, p, xd) == w
    && g.slots[p].Child(xd) == x && g.slots[p].Child(Flip(xd)) == w && g.slots[w].parent == p
    && g.slots[w].Child(Flip(xd)) == wc && g.slots[wc].parent == w
    && p != x && w != x && wc != x && w != p && wc != p && wc != w
    && p != g.nil && w != g.nil && wc != g.nil
    && var b := Moved(g3, p, xd);
    && b == g.slots[w].Child(xd)
    && b in g.slots && b != w && b != wc && b != p && (x != g.nil ==> b != x)
    && var q := g.slots[p].parent;
    && q in g.slots && q != p && q != w && q != wc
    && (q != g.nil ==> q != x && q != b && (g.slots[q].left == p) != (g.slots[q].right == p))
    && !Red(g, w) && Red(g, wc) && !Red(g, x) && !Red(g, g.nil)
    && g.nil in bh && bh[g.nil] == 0 && p in bh && w in bh && wc in bh && bh[w] == bh[wc]
    && BlackEdge(g, bh, p, 0, Extra(p, 0, p, xd)) && BlackEdge(g, bh, p, 1, Extra(p, 1, p, xd))
    && BlackEdge(g, bh, w, 0, 0) && BlackEdge(g, bh, w, 1, 0)
  }

  ghost predicate FarRedNode<H>(g: Graph<H>, bh: map<H, nat>, x: H, p: H, xd: Dir, w: H, wc: H, n: H)
    requires p in g.slots
  {
    && n in g.slots && n != g.nil
    && RedEdgeAt(g, n, x, x)
    && BlackEdge(g, bh, n, 0, Extra(n, 0, p, xd)) && BlackEdge(g, bh, n, 1, Extra(n, 1, p, xd))
    && (n != g.slots[p].parent ==> g.slots[n].left != p && g.slots[n].right != p)
    && (n != p ==> g.slots[n].left != w && g.slots[n].right != w)
    && (n != w ==> g.slots[n].left != wc && g.slots[n].right != wc)
  }

  lemma FarRedNodes<H>(g: Graph<H>, N: set<H>, sub: map<H, set<H>>, bh: map<H, nat>, x: H, p: H, xd: Dir, w: H, wc: H)
    requires DeleteInv(g, N, sub, bh, x, p, xd) && x != g.root && !Red(g, x)
    requires p in g.slots && w == g.slots[p].Child(Flip(xd)) && w in g.slots && wc == g.slots[w].Child(Flip(xd)) && wc != g.nil
    ensures forall n :: n in N ==> FarRedNode(g, bh, x, p, xd, w, wc, n)
  {
    DeleteFacts(g, N, sub, bh, x, p, xd);
    assert LinkedAt(g, N, sub, p);
    assert LinkedAt(g, N, sub, w);
    forall n | n in N ensures FarRedNode(g, bh, x, p, xd, w, wc, n) {
      assert LinkedAt(g, N, sub, n);
      assert RedEdgeAt(g, n, x, x);
      assert BlackAt(g, bh, n, p, xd);
      assert BlackEdge(g, bh, n, 0, Extra(n, 0, p, xd)) && BlackEdge(g, bh, n, 1, Extra(n, 1, p, xd));
    }
  }

  lemma FarRedAll<H>(g: Graph<H>, g3: Graph<H>, g': Graph<H>, N: set<H>, bh: map<H, nat>, x: H, p: H, xd: Dir, w: H, wc: H)
    requires FarRedSetup(g, g3, g', bh, x, p, xd, w, wc)
    requires forall n :: n in N ==> FarRedNode(g, bh, x, p, xd, w, wc, n)
    ensures RedEdges(g', N, g'.root, g'.root) && BlackEdges(g', N, bh[p := bh[w]][w := bh[p]], g.nil, xd)
  {
    forall n | n in N
      ensures RedEdgeAt(g', n, g'.root, g'.root)
      ensures BlackEdge(g', bh[p := bh[w]][w := bh[p]], n, 0, 0)
      ensures BlackEdge(g', bh[p := bh[w]][w := bh[p]], n, 1, 0)
    {
      FarRedAt(g, g3, g', bh, x, p, xd, w, wc, n);
    }
  }

  lemma FarRedAt<H>(g: Graph<H>, g3: Graph<H>, g': Graph<H>, bh: map<H, nat>, x: H, p: H, xd: Dir, w: H, wc: H, n: H)
    requires FarRedSetup(g, g3, g', bh, x, p, xd, w, wc) && FarRedNode(g, bh, x, p, xd, w, wc, n)
    ensures RedEdgeAt(g', n, g.nil, g.nil)
    ensures BlackEdge(g', bh[p := bh[w]][w := bh[p]], n, 0, 0)
    ensures BlackEdge(g', bh[p := bh[w]][w := bh[p]], n, 1, 0)
  {
    if n == p || n == w {
      FarRedAtTop(g, g3, g', bh, x, p, xd, w, wc, n);
    } else {
      FarRedAtRest(g, g3, g', bh, x, p, xd, w, wc, n);
    }
  }

  /** p and w, the two nodes the rotation turns around. */
  lemma FarRedAtTop<H>(g: Graph<H>, g3: Graph<H>, g': Graph<H>, bh: map<H, nat>, x: H, p: H, xd: Dir, w: H, wc: H, n: H)
    requires FarRedSetup(g, g3, g', bh, x, p, xd, w, wc) && FarRedNode(g, bh, x, p, xd, w, wc, n)
    requires n == p || n == w
    ensures RedEdgeAt(g', n, g.nil, g.nil)
    ensures BlackEdge(g', bh[p := bh[w]][w := bh[p]], n, 0, 0)
    ensures BlackEdge(g', bh[p := bh[w]][w := bh[p]], n, 1, 0)
  {
    var bh' := bh[p := bh[w]][w := bh[p]];
    var b := Moved(g3, p, xd);
    if n == p {
      assert g'.slots[p].Child(xd) == x;
      assert g'.slots[p].Child(Flip(xd)) == b;
      assert RedEdgeAt(g', n, g.nil, g.nil);
      assert BlackEdge(g', bh', n, xd, 0);
      assert BlackEdge(g', bh', n, Flip(xd), 0);
    } else {
      assert g'.slots[w].Child(xd) == p;
      assert g'.slots[w].Child(Flip(xd)) == wc;
      assert RedEdgeAt(g', n, g.nil, g.nil);
      assert BlackEdge(g', bh', n, xd, 0);
      assert BlackEdge(g', bh', n, Flip(xd), 0);
    }
  }

  lemma FarRedAtRest<H>(g: Graph<H>, g3: Graph<H>, g': Graph<H>, bh: map<H, nat>, x: H, p: H, xd: Dir, w: H, wc: H, n: H)
    requires FarRedSetup(g, g3, g', bh, x, p, xd, w, wc) && FarRedNode(g, bh, x, p, xd, w, wc, n)
    requires n != p && n != w
    ensures RedEdgeAt(g', n, g.nil, g.nil)
    ensures BlackEdge(g', bh[p := bh[w]][w := bh[p]], n, 0, 0)
    ensures BlackEdge(g', bh[p := bh[w]][w := bh[p]], n, 1, 0)
  {
    if n == g.slots[p].parent {
      FarRedAtParent(g, g3, g', bh, x, p, xd, w, wc, n);
    } else {
      FarRedAtOther(g, g3, g', bh, x, p, xd, w, wc, n);
    }
  }

  /** p's old parent, which now holds w where it held p. */
  lemma FarRedAtParent<H>(g: Graph<H>, g3: Graph<H>, g': Graph<H>, bh: map<H, nat>, x: H, p: H, xd: Dir, w: H, wc: H, n: H)
    requires FarRedSetup(g, g3, g', bh, x, p, xd, w, wc) && FarRedNode(g, bh, x, p, xd, w, wc, n)
    requires n == g.slots[p].parent
    ensures RedEdgeAt(g', n, g.nil, g.nil)
    ensures BlackEdge(g', bh[p := bh[w]][w := bh[p]], n, 0, 0)
    ensures BlackEdge(g', bh[p := bh[w]][w := bh[p]], n, 1, 0)
  {
    var bh' := bh[p := bh[w]][w := bh[p]];
    var qd: Dir := if g.slots[n].left == p then 0 else 1;
    assert g'.slots[n].Child(qd) == w;
    assert g'.slots[n].Child(Flip(qd)) == g.slots[n].Child(Flip(qd));
    assert RedEdgeAt(g', n, g.nil, g.nil);
    assert BlackEdge(g', bh', n, qd, 0);
    assert BlackEdge(g', bh', n, Flip(qd), 0);
  }

  /** Every node the rotation leaves alone. */
  lemma FarRedAtOther<H>(g: Graph<H>, g3: Graph<H>, g': Graph<H>, bh: map<H, nat>, x: H, p: H, xd: Dir, w: H, wc: H, n: H)
    requires FarRedSetup(g, g3, g', bh, x, p, xd, w, wc) && FarRedNode(g, bh, x, p, xd, w, wc, n)
    requires n != p && n != w && n != g.slots[p].parent
    ensures RedEdgeAt(g', n, g.nil, g.nil)
    ensures BlackEdge(g', bh[p := bh[w]][w := bh[p]], n, 0, 0)
    ensures BlackEdge(g', bh[p := bh[w]][w := bh[p]], n, 1, 0)
  {
    var bh' := bh[p := bh[w]][w := bh[p]];
    RotatedChildrenElsewhere(g3, g', p, xd, n);
    assert RedEdgeAt(g', n, g.nil, g.nil);
    assert BlackEdge(g', bh', n, 0, 0);
    assert BlackEdge(g', bh', n, 1, 0);
  }

  /** When x is the root or red the loop stops, and blackening x gives a red-black tree. */
  lemma DeleteDone<H>(g: Graph<H>, N: set<H>, sub: map<H, set<H>>, bh: map<H, nat>, x: H, xp: H, xd: Dir)
    requires DeleteInv(g, N, sub, bh, x, xp, xd) && (x == g.root || Red(g, x))
    ensures RedBlack(SetRed(g, x, false), N, sub, bh)
  {
    var g' := SetRed(g, x, false);
    SetRedSameLinks(g, x, false);
    SameLinksKeep(g, g', N, sub);
    var dp := if x == g.root then g.nil else xp;
    forall n | n in N
      ensures RedEdgeAt(g', n, g.nil, g.nil)
      ensures BlackAt(g', bh, n, g.nil, 0)
    {
      assert LinkedAt(g, N, sub, n);
      if x != g.nil && (g.slots[n].left == x || g.slots[n].right == x) {
        assert g.slots[x].parent == n;
      }
      assert BlackAt(g, bh, n, dp, xd);
      assert RedEdgeAt(g, n, x, x) && BlackEdge(g, bh, n, 0, Extra(n, 0, dp, xd)) && BlackEdge(g, bh, n, 1, Extra(n, 1, dp, xd));
      DeleteDoneAt(g, bh, x, dp, xd, n);
    }
  }

  lemma DeleteDoneAt<H>(g: Graph<H>, bh: map<H, nat>, x: H, dp: H, xd: Dir, n: H)
    requires x in g.slots && n in g.slots && dp in g.slots && n != g.nil && !Red(g, g.nil)
    requires dp != g.nil ==> Red(g, x) && g.slots[dp].Child(xd) == x
    requires x != g.nil && (g.slots[n].left == x || g.slots[n].right == x) ==> n == dp
    requires RedEdgeAt(g, n, x, x)
    requires BlackEdge(g, bh, n, 0, Extra(n, 0, dp, xd)) && BlackEdge(g, bh, n, 1, Extra(n, 1, dp, xd))
    ensures var g' := SetRed(g, x, false);
            RedEdgeAt(g', n, g.nil, g.nil) && BlackEdge(g', bh, n, 0, 0) && BlackEdge(g', bh, n, 1, 0)
  {
  }
}
