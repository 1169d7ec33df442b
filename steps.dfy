/**
 * One lemma per pass of the repair loops, relating the storage graph before
 * a pass to the graph its writes produce. The imperative variants perform
 * the writes of a pass and then call the matching step lemma, so the
 * reasoning about a pass lives at the value level, once for both variants.
 */
module RbSteps {
  import opened RbGraph
  import opened RbInvariants
  import opened RbRotate
  import opened RbInsert
  import opened RbDelete
  import opened RbDeleteFixup
  import opened RbStorage

  /** What `rotate(x, dir)` reads is there, and the subtree sets after it are defined. */
  ghost predicate SubReady<H>(g: Graph<H>, sub: map<H, set<H>>, x: H, dir: Dir) {
    && CanRotate(g, x, dir) && x in sub && g.slots[x].Child(dir) in sub
    && g.slots[g.slots[x].Child(Flip(dir))].Child(dir) in sub
  }

  lemma RotatableReady<H>(g: Graph<H>, N: set<H>, sub: map<H, set<H>>, x: H, dir: Dir)
    requires Rotatable(g, N, sub, x, dir)
    ensures SubReady(g, sub, x, dir)
  {
    RotatableCan(g, N, sub, x, dir);
    assert LinkedAt(g, N, sub, x);
    assert LinkedAt(g, N, sub, g.slots[x].Child(Flip(dir)));
  }

  /** A rotation keeps every key and colour, and the descent order of the nodes. */
  lemma RotateKeeps<H>(g: Graph<H>, N: set<H>, sub: map<H, set<H>>, x: H, dir: Dir)
    requires Rotatable(g, N, sub, x, dir)
    ensures SubReady(g, sub, x, dir) && SameKeys(g, Rotate(g, x, dir))
    ensures forall m :: Red(Rotate(g, x, dir), m) == Red(g, m)
    ensures Ordered(g, N, sub) ==> Ordered(Rotate(g, x, dir), N, RotateSub(g, sub, x, dir))
  {
    RotatableReady(g, N, sub, x, dir);
    RotateSameKeys(g, N, sub, x, dir);
    if Ordered(g, N, sub) {
      RotateOrdered(g, N, sub, x, dir);
    }
  }

  /** Recolouring moves no link: keys, links and the descent order stay. */
  lemma RecolourKeeps<H>(g: Graph<H>, g': Graph<H>, N: set<H>, sub: map<H, set<H>>)
    requires SameLinks(g, g')
    ensures SameKeys(g, g') && (Linked(g, N, sub) ==> Linked(g', N, sub))
    ensures Ordered(g, N, sub) ==> Ordered(g', N, sub)
  {
    SameLinksKeep(g, g', N, sub);
    SameLinksSameKeys(g, g');
  }

  lemma Recolour2<H>(g: Graph<H>, a: H, b: H, x: bool, y: bool)
    requires a in g.slots && b in g.slots
    ensures SameLinks(g, SetRed(SetRed(g, a, x), b, y))
  {
    SetRedSameLinks(g, a, x);
    SetRedSameLinks(SetRed(g, a, x), b, y);
    SameLinksTrans(g, SetRed(g, a, x), SetRed(SetRed(g, a, x), b, y));
  }

  lemma Recolour3<H>(g: Graph<H>, a: H, b: H, c: H, x: bool, y: bool, z: bool)
    requires a in g.slots && b in g.slots && c in g.slots
    ensures SameLinks(g, SetRed(SetRed(SetRed(g, a, x), b, y), c, z))
  {
    Recolour2(g, a, b, x, y);
    SetRedSameLinks(SetRed(SetRed(g, a, x), b, y), c, z);
    SameLinksTrans(g, SetRed(SetRed(g, a, x), b, y), SetRed(SetRed(SetRed(g, a, x), b, y), c, z));
  }

  // ---------------------------------------------------------------- insertion

  lemma GrandparentHeight<H>(g: Graph<H>, N: set<H>, sub: map<H, set<H>>, bh: map<H, nat>, z: H, p: H)
    requires InsertInv(g, N, sub, bh, z) && p == g.slots[z].parent && Red(g, p)
    ensures p in g.slots && g.slots[p].parent in bh
  {
    InsertFacts(g, N, sub, bh, z, p);
    assert BlackAt(g, bh, g.slots[p].parent, g.nil, 0);
  }

  /** Red uncle u: p and u turn black, pp red; the red-red edge may now enter pp, two levels up. */
  lemma RecolourUpStep<H>(g: Graph<H>, g': Graph<H>, N: set<H>, sub: map<H, set<H>>, bh: map<H, nat>, bh': map<H, nat>, z: H, p: H, pp: H, u: H)
    requires InsertInv(g, N, sub, bh, z) && p == g.slots[z].parent && Red(g, p)
    requires p in g.slots && pp == g.slots[p].parent && pp in g.slots
    requires u == g.slots[pp].Child(if g.slots[pp].left == p then 1 else 0) && Red(g, u)
    requires u in g.slots && g' == SetRed(SetRed(SetRed(g, p, false), u, false), pp, true)
    requires pp in bh && bh' == bh[pp := bh[pp] + 1]
    ensures InsertInv(g', N, sub, bh', pp)
    ensures |N - sub[pp]| < |N - sub[z]|
    ensures SameKeys(g, g') && (Ordered(g, N, sub) ==> Ordered(g', N, sub))
  {
    InsertFacts(g, N, sub, bh, z, p);
    InsertRedUncle(g, N, sub, bh, z, p, pp, u);
    SubtreeBelowParent(g, N, sub, z);
    SubtreeBelowParent(g, N, sub, p);
    OutsideShrinks(N, sub[z], sub[pp]);
    Recolour3(g, p, u, pp, false, false, true);
    RecolourKeeps(g, g', N, sub);
  }

  /** Before the inner rotation: `rotate(p, dir ^ 1)` can run. */
  lemma InnerReady<H>(g: Graph<H>, N: set<H>, sub: map<H, set<H>>, bh: map<H, nat>, z: H, p: H, pp: H, dir: Dir)
    requires InsertInv(g, N, sub, bh, z) && p == g.slots[z].parent && Red(g, p)
    requires p in g.slots && pp == g.slots[p].parent && pp in g.slots
    requires dir == (if g.slots[pp].left == p then 1 else 0) && !Red(g, g.slots[pp].Child(dir))
    requires z == g.slots[p].Child(dir)
    ensures SubReady(g, sub, p, Flip(dir))
  {
    InsertInner(g, N, sub, bh, z, p, pp, dir);
    RotatableReady(g, N, sub, p, Flip(dir));
  }

  /** Black uncle, z an inner child: the rotation at p makes p an outer child below z. */
  lemma InnerStep<H>(g: Graph<H>, g': Graph<H>, N: set<H>, sub: map<H, set<H>>, sub': map<H, set<H>>, bh: map<H, nat>, z: H, p: H, pp: H, dir: Dir)
    requires InsertInv(g, N, sub, bh, z) && p == g.slots[z].parent && Red(g, p)
    requires p in g.slots && pp == g.slots[p].parent && pp in g.slots
    requires dir == (if g.slots[pp].left == p then 1 else 0) && !Red(g, g.slots[pp].Child(dir))
    requires z == g.slots[p].Child(dir)
    requires SubReady(g, sub, p, Flip(dir))
    requires g' == Rotate(g, p, Flip(dir)) && sub' == RotateSub(g, sub, p, Flip(dir))
    ensures InsertInv(g', N, sub', bh, p)
    ensures g'.slots[p].parent == z && g'.slots[z].parent == pp && Red(g', z)
    ensures dir == (if g'.slots[pp].left == z then 1 else 0) && !Red(g', g'.slots[pp].Child(dir))
    ensures p == g'.slots[z].Child(Flip(dir))
    ensures SameKeys(g, g') && (Ordered(g, N, sub) ==> Ordered(g', N, sub'))
  {
    InsertInner(g, N, sub, bh, z, p, pp, dir);
    RotateKeeps(g, N, sub, p, Flip(dir));
  }

  /** The colours of the outer case: p black, pp red. */
  function OuterColours<H>(g: Graph<H>, p: H, pp: H): (g': Graph<H>)
    requires p in g.slots && pp in g.slots
  {
    SetRed(SetRed(g, p, false), pp, true)
  }

  /** Before the outer rotation: `rotate(pp, dir)` can run once p and pp are recoloured. */
  lemma OuterReady<H>(g: Graph<H>, N: set<H>, sub: map<H, set<H>>, bh: map<H, nat>, z: H, p: H, pp: H, dir: Dir)
    requires InsertInv(g, N, sub, bh, z) && p == g.slots[z].parent && Red(g, p)
    requires p in g.slots && pp == g.slots[p].parent && pp in g.slots
    requires dir == (if g.slots[pp].left == p then 1 else 0) && !Red(g, g.slots[pp].Child(dir))
    requires z == g.slots[p].Child(Flip(dir))
    ensures SubReady(OuterColours(g, p, pp), sub, pp, dir)
  {
    InsertOuter(g, N, sub, bh, z, p, pp, dir);
    RotatableReady(OuterColours(g, p, pp), N, sub, pp, dir);
  }

  /** Black uncle, z an outer child: after the recolouring and the rotation at pp no red-red edge is left. */
  lemma OuterStep<H>(g: Graph<H>, g': Graph<H>, N: set<H>, sub: map<H, set<H>>, sub': map<H, set<H>>, bh: map<H, nat>, z: H, p: H, pp: H, dir: Dir)
    requires InsertInv(g, N, sub, bh, z) && p == g.slots[z].parent && Red(g, p)
    requires p in g.slots && pp == g.slots[p].parent && pp in g.slots
    requires dir == (if g.slots[pp].left == p then 1 else 0) && !Red(g, g.slots[pp].Child(dir))
    requires z == g.slots[p].Child(Flip(dir))
    requires SubReady(OuterColours(g, p, pp), sub, pp, dir)
    requires g' == Rotate(OuterColours(g, p, pp), pp, dir) && sub' == RotateSub(OuterColours(g, p, pp), sub, pp, dir)
    ensures InsertInv(g', N, sub', bh, z) && g'.slots[z].parent == p && p in g'.slots && !Red(g', p)
    ensures SameKeys(g, g') && (Ordered(g, N, sub) ==> Ordered(g', N, sub'))
  {
    InsertOuter(g, N, sub, bh, z, p, pp, dir);
    var g2 := OuterColours(g, p, pp);
    Recolour2(g, p, pp, false, true);
    RecolourKeeps(g, g2, N, sub);
    RotateKeeps(g2, N, sub, pp, dir);
    SameKeysTrans(g, g2, g');
  }

  /** The end of the insertion loop: blackening the root leaves a red-black tree. */
  lemma InsertDoneStep<H>(g: Graph<H>, g': Graph<H>, N: set<H>, sub: map<H, set<H>>, bh: map<H, nat>, z: H)
    requires InsertInv(g, N, sub, bh, z) && !Red(g, g.slots[z].parent)
    requires g.root in g.slots && g' == SetRed(g, g.root, false)
    ensures RedBlack(g', N, sub, bh)
    ensures SameKeys(g, g') && (Ordered(g, N, sub) ==> Ordered(g', N, sub))
  {
    InsertDone(g, N, sub, bh, z);
    SetRedSameLinks(g, g.root, false);
    RecolourKeeps(g, g', N, sub);
  }

  /**
   * The attachment of insertion: z, a fresh black slot holding k, hangs red
   * below y on side d. The repair loop's invariant holds, the descent order
   * is kept when z fits below y, and the tree holds one more k.
   */
  lemma AttachStep<H>(g0: Graph<H>, g1: Graph<H>, g': Graph<H>, N: set<H>, sub: map<H, set<H>>, bh: map<H, nat>,
                      N': set<H>, sub': map<H, set<H>>, bh': map<H, nat>, z: H, y: H, d: Dir, k: int)
    requires RedBlack(g0, N, sub, bh) && AddedSlot(g0, g1, z) && g1.slots[z] == NewRec(k, g0.nil)
    requires y == g0.nil || y in N
    requires y == g0.nil ==> g0.root == g0.nil
    requires y != g0.nil ==> g1.slots[y].Child(d) == g0.nil
    requires g' == SetRed(Attach(g1, z, y, d), z, true)
    requires Ordered(g0, N, sub) && y != g0.nil ==> FitsBelow(g1, N, sub, y, d, k)
    requires N' == N + {z} && sub' == AttachSub(sub, y, z) && bh' == bh[z := 1]
    ensures InsertInv(g', N', sub', bh', z)
    ensures Ordered(g0, N, sub) ==> Ordered(g', N', sub')
    ensures forall j :: Occurrences(g', N', j) == Occurrences(g0, N, j) + (if j == k then 1 else 0)
    ensures Keys(g', N') == Keys(g0, N) + {k}
  {
    AddSlotKeeps(g0, g1, N, sub, bh, z);
    assert z != g0.nil && z !in N;
    assert Attachable(g1, N, sub, z, y, d);
    AttachRed(g1, N, sub, bh, z, y, d);
    var ga := Attach(g1, z, y, d);
    if Ordered(g0, N, sub) {
      AttachOrdered(g1, N, sub, z, y, d);
      SetRedSameLinks(ga, z, true);
      SameLinksKeep(ga, g', N + {z}, AttachSub(sub, y, z));
    }
    AddNodeOccurrences(g0, g', N, z, k);
  }

  // ---------------------------------------------------------------- deletion

  /** The colours case 1 writes before its rotation: w black, p red. */
  function RedSiblingColours<H>(g: Graph<H>, p: H, w: H): (g': Graph<H>)
    requires p in g.slots && w in g.slots
  {
    SetRed(SetRed(g, w, false), p, true)
  }

  /** Before case 1's rotation: `rotate(p, dir ^ 1)` can run once w and p are recoloured. */
  lemma RedSiblingReady<H>(g: Graph<H>, N: set<H>, sub: map<H, set<H>>, bh: map<H, nat>, x: H, p: H, xd: Dir, w: H)
    requires DeleteInv(g, N, sub, bh, x, p, xd) && x != g.root && !Red(g, x)
    requires p in g.slots && w == g.slots[p].Child(Flip(xd)) && Red(g, w)
    ensures w in g.slots && SubReady(RedSiblingColours(g, p, w), sub, p, xd)
  {
    DeleteRedSibling(g, N, sub, bh, x, p, xd, w);
    RotatableReady(RedSiblingColours(g, p, w), N, sub, p, xd);
  }

  /** Case 1, red sibling: after the recolouring and the rotation at p, x keeps its place and its new sibling is black. */
  lemma RedSiblingStep<H>(g: Graph<H>, g': Graph<H>, N: set<H>, sub: map<H, set<H>>, sub': map<H, set<H>>, bh: map<H, nat>, x: H, p: H, xd: Dir, w: H)
    requires DeleteInv(g, N, sub, bh, x, p, xd) && x != g.root && !Red(g, x)
    requires p in g.slots && w == g.slots[p].Child(Flip(xd)) && w in g.slots && Red(g, w)
    requires SubReady(RedSiblingColours(g, p, w), sub, p, xd)
    requires g' == Rotate(RedSiblingColours(g, p, w), p, xd) && sub' == RotateSub(RedSiblingColours(g, p, w), sub, p, xd)
    ensures DeleteInv(g', N, sub', bh, x, p, xd) && x != g'.root && p in g'.slots && !Red(g', x)
    ensures !Red(g', g'.slots[p].Child(Flip(xd)))
    ensures x in sub && x in sub' && sub'[x] == sub[x]
    ensures Ordered(g, N, sub) ==> Ordered(g', N, sub')
    ensures SameKeys(g, g')
  {
    DeleteRedSibling(g, N, sub, bh, x, p, xd, w);
    DeleteFacts(g, N, sub, bh, x, p, xd);
    var g2 := RedSiblingColours(g, p, w);
    Recolour2(g, w, p, false, true);
    RecolourKeeps(g, g2, N, sub);
    RotateKeeps(g2, N, sub, p, xd);
    SameKeysTrans(g, g2, g');
  }

  /** Case 2, black sibling with black children: w turns red and x moves up to p, which is now one black short. */
  lemma BlackNephewsStep<H>(g: Graph<H>, g': Graph<H>, N: set<H>, sub: map<H, set<H>>, bh: map<H, nat>, bh': map<H, nat>, x: H, p: H, xd: Dir, w: H)
    requires DeleteInv(g, N, sub, bh, x, p, xd) && x != g.root && !Red(g, x)
    requires p in g.slots && w == g.slots[p].Child(Flip(xd)) && w in g.slots && !Red(g, w)
    requires !Red(g, g.slots[w].left) && !Red(g, g.slots[w].right)
    requires g' == SetRed(g, w, true) && p in bh && bh[p] >= 1 && bh' == bh[p := bh[p] - 1]
    ensures p in N && p in g'.slots && g'.slots[p].parent in g'.slots
    ensures DeleteInv(g', N, sub, bh', p, g'.slots[p].parent, SideOf(g', p))
    ensures x in sub && p in sub && |N - sub[p]| < |N - sub[x]|
    ensures Ordered(g, N, sub) ==> Ordered(g', N, sub)
    ensures SameKeys(g, g')
  {
    DeleteBlackNephews(g, N, sub, bh, x, p, xd, w);
    DeleteFacts(g, N, sub, bh, x, p, xd);
    if p != g.root {
      SubtreeBelowParent(g, N, sub, p);
    }
    OutsideShrinks(N, sub[x], sub[p]);
    SetRedSameLinks(g, w, true);
    RecolourKeeps(g, g', N, sub);
    assert g'.slots[p].parent == g.slots[p].parent;
    assert SideOf(g', p) == SideOf(g, p);
  }

  /** The colours case 3 writes before its rotation: the near nephew wo black, w red. */
  function FarBlackColours<H>(g: Graph<H>, w: H, wo: H): (g': Graph<H>)
    requires w in g.slots && wo in g.slots
  {
    SetRed(SetRed(g, wo, false), w, true)
  }

  /** Before case 3's rotation: `rotate(w, dir)` can run once wo and w are recoloured. */
  lemma FarBlackReady<H>(g: Graph<H>, N: set<H>, sub: map<H, set<H>>, bh: map<H, nat>, x: H, p: H, xd: Dir, w: H)
    requires DeleteInv(g, N, sub, bh, x, p, xd) && x != g.root && !Red(g, x)
    requires p in g.slots && w == g.slots[p].Child(Flip(xd)) && w in g.slots && !Red(g, w)
    requires !Red(g, g.slots[w].Child(Flip(xd))) && Red(g, g.slots[w].Child(xd))
    ensures g.slots[w].Child(xd) in g.slots
    ensures SubReady(FarBlackColours(g, w, g.slots[w].Child(xd)), sub, w, Flip(xd))
  {
    DeleteFarBlack(g, N, sub, bh, x, p, xd, w);
    RotatableReady(FarBlackColours(g, w, g.slots[w].Child(xd)), N, sub, w, Flip(xd));
  }

  /** Case 3, black sibling with a black far and a red near child: after the rotation at w, x's sibling is black with a red far child. */
  lemma FarBlackStep<H>(g: Graph<H>, g': Graph<H>, N: set<H>, sub: map<H, set<H>>, sub': map<H, set<H>>, bh: map<H, nat>, x: H, p: H, xd: Dir, w: H, wo: H)
    requires DeleteInv(g, N, sub, bh, x, p, xd) && x != g.root && !Red(g, x)
    requires p in g.slots && w == g.slots[p].Child(Flip(xd)) && w in g.slots && !Red(g, w)
    requires wo == g.slots[w].Child(xd) && wo in g.slots
    requires !Red(g, g.slots[w].Child(Flip(xd))) && Red(g, wo)
    requires SubReady(FarBlackColours(g, w, wo), sub, w, Flip(xd))
    requires g' == Rotate(FarBlackColours(g, w, wo), w, Flip(xd)) && sub' == RotateSub(FarBlackColours(g, w, wo), sub, w, Flip(xd))
    ensures DeleteInv(g', N, sub', bh, x, p, xd) && x != g'.root && p in g'.slots && !Red(g', x)
    ensures var w' := g'.slots[p].Child(Flip(xd));
            w' in g'.slots && !Red(g', w') && g'.slots[w'].Child(Flip(xd)) in g'.slots && Red(g', g'.slots[w'].Child(Flip(xd)))
    ensures x in sub && x in sub' && sub'[x] == sub[x]
    ensures Ordered(g, N, sub) ==> Ordered(g', N, sub')
    ensures SameKeys(g, g')
  {
    DeleteFarBlack(g, N, sub, bh, x, p, xd, w);
    DeleteFacts(g, N, sub, bh, x, p, xd);
    var g2 := FarBlackColours(g, w, wo);
    Recolour2(g, wo, w, false, true);
    RecolourKeeps(g, g2, N, sub);
    RotateKeeps(g2, N, sub, w, Flip(xd));
    SameKeysTrans(g, g2, g');
  }

  /** Case 4's black heights: p and w trade theirs, since w takes p's place and colour. */
  function SwapHeights<H>(bh: map<H, nat>, p: H, w: H): (bh': map<H, nat>)
    requires p in bh && w in bh
    ensures bh'.Keys == bh.Keys && bh'[p] == bh[w] && bh'[w] == bh[p]
    ensures forall n :: n in bh && n != p && n != w ==> bh'[n] == bh[n]
  {
    bh[p := bh[w]][w := bh[p]]
  }

  /** Before case 4's rotation: `rotate(p, dir ^ 1)` can run once w, p and the far nephew wc are recoloured. */
  lemma FarRedReady<H>(g: Graph<H>, N: set<H>, sub: map<H, set<H>>, bh: map<H, nat>, x: H, p: H, xd: Dir, w: H)
    requires DeleteInv(g, N, sub, bh, x, p, xd) && x != g.root && !Red(g, x)
    requires p in g.slots && w == g.slots[p].Child(Flip(xd)) && w in g.slots && !Red(g, w)
    requires Red(g, g.slots[w].Child(Flip(xd)))
    ensures p in bh && w in bh && g.slots[w].Child(Flip(xd)) in g.slots
    ensures SubReady(FarRedColours(g, p, w, g.slots[w].Child(Flip(xd))), sub, p, xd)
  {
    DeleteFarRed(g, N, sub, bh, x, p, xd, w);
    RotatableReady(FarRedColours(g, p, w, g.slots[w].Child(Flip(xd))), N, sub, p, xd);
  }

  /** Case 4, black sibling with a red far child: after the recolouring and the rotation at p no black is missing, with x moved to the root. */
  lemma FarRedStep<H>(g: Graph<H>, g': Graph<H>, N: set<H>, sub: map<H, set<H>>, sub': map<H, set<H>>, bh: map<H, nat>, bh': map<H, nat>,
                      x: H, p: H, xd: Dir, w: H, wc: H)
    requires DeleteInv(g, N, sub, bh, x, p, xd) && x != g.root && !Red(g, x)
    requires p in g.slots && w == g.slots[p].Child(Flip(xd)) && w in g.slots && !Red(g, w)
    requires wc == g.slots[w].Child(Flip(xd)) && wc in g.slots && Red(g, wc)
    requires SubReady(FarRedColours(g, p, w, wc), sub, p, xd)
    requires g' == Rotate(FarRedColours(g, p, w, wc), p, xd) && sub' == RotateSub(FarRedColours(g, p, w, wc), sub, p, xd)
    requires p in bh && w in bh && bh' == SwapHeights(bh, p, w)
    ensures DeleteInv(g', N, sub', bh', g'.root, g.nil, xd) && g'.nil == g.nil
    ensures x in sub && |N - sub'[g'.root]| < |N - sub[x]|
    ensures Ordered(g, N, sub) ==> Ordered(g', N, sub')
    ensures SameKeys(g, g')
  {
    DeleteFarRed(g, N, sub, bh, x, p, xd, w);
    DeleteFacts(g, N, sub, bh, x, p, xd);
    OutsideRoot(g, N, sub, x);
    var g3 := FarRedColours(g, p, w, wc);
    Recolour3(g, w, p, wc, Red(g, p), false, false);
    RecolourKeeps(g, g3, N, sub);
    RotateKeeps(g3, N, sub, p, xd);
    SameKeysTrans(g, g3, g');
    assert N - sub'[g'.root] == {};
  }

  /** The end of deletion's repair: blackening x leaves a red-black tree. */
  lemma DeleteDoneStep<H>(g: Graph<H>, g': Graph<H>, N: set<H>, sub: map<H, set<H>>, bh: map<H, nat>, x: H, xp: H, xd: Dir)
    requires DeleteInv(g, N, sub, bh, x, xp, xd) && (x == g.root || Red(g, x))
    requires g' == SetRed(g, x, false)
    ensures RedBlack(g', N, sub, bh) && SameKeys(g, g')
    ensures Ordered(g, N, sub) ==> Ordered(g', N, sub)
  {
    DeleteDone(g, N, sub, bh, x, xp, xd);
    SetRedSameLinks(g, x, false);
    RecolourKeeps(g, g', N, sub);
  }

  /**
   * The splice in `delete`, with the annotations after it given: y keeps its
   * record, no key moves, and the tree is red-black again (red y) or one
   * black short at y's old place (black y).
   */
  lemma UnlinkStep<H>(g: Graph<H>, g': Graph<H>, N: set<H>, sub: map<H, set<H>>, bh: map<H, nat>, N': set<H>, sub': map<H, set<H>>, y: H)
    requires Spliceable(g, N, sub, y) && RedBlack(g, N, sub, bh)
    requires SpliceChild(g, y) in g.slots && g.slots[y].parent in g.slots
    requires g' == Splice(g, y) && N' == N - {y} && sub' == RemoveSub(sub, y)
    ensures y in g'.slots && g'.slots[y] == g.slots[y] && SameKeys(g, g')
    ensures Red(g, y) ==> RedBlack(g', N', sub', bh)
    ensures !Red(g, y) ==> DeleteInv(g', N', sub', bh, SpliceChild(g, y), g.slots[y].parent, SideOf(g, y))
    ensures Ordered(g, N, sub) ==> Ordered(g', N', sub')
  {
    SpliceFacts(g, N, sub, y);
    SpliceRecords(g, N, sub, y);
    if Red(g, y) {
      SpliceRed(g, N, sub, bh, y);
    } else {
      SpliceBlack(g, N, sub, bh, y);
    }
    if Ordered(g, N, sub) {
      SpliceOrdered(g, N, sub, y);
    }
    forall m | m in g.slots ensures g'.slots[m].key == g.slots[m].key {
    }
  }

  /** Writing a key changes neither links nor colours, so the repair loop's invariant stays. */
  lemma SetKeyKeepsShort<H>(g: Graph<H>, N: set<H>, sub: map<H, set<H>>, bh: map<H, nat>, x: H, xp: H, xd: Dir, n: H, k: int)
    requires n in g.slots && DeleteInv(g, N, sub, bh, x, xp, xd)
    ensures DeleteInv(SetKey(g, n, k), N, sub, bh, x, xp, xd)
  {
    var g' := SetKey(g, n, k);
    var dp := if x == g.root then g.nil else xp;
    forall m | m in N
      ensures LinkedAt(g', N, sub, m)
      ensures RedEdgeAt(g', m, x, x)
      ensures BlackAt(g', bh, m, dp, xd)
    {
      assert LinkedAt(g, N, sub, m);
      assert RedEdgeAt(g, m, x, x);
      assert BlackAt(g, bh, m, dp, xd);
      assert BlackEdge(g, bh, m, 0, Extra(m, 0, dp, xd)) && BlackEdge(g, bh, m, 1, Extra(m, 1, dp, xd));
    }
  }

  /**
   * `mem::swap` of the keys of z and y, as the pointer variant's `delete`
   * does it before its repair: z now holds y's key, y holds z's, no other
   * key moves, and neither the red-black properties nor the repair loop's
   * invariant notice.
   */
  lemma SwapKeysStep<H>(g: Graph<H>, g': Graph<H>, N: set<H>, sub: map<H, set<H>>, bh: map<H, nat>, x: H, xp: H, xd: Dir, y: H, z: H)
    requires y in g.slots && z in g.slots
    requires g' == SetKey(SetKey(g, z, g.slots[y].key), y, g.slots[z].key)
    ensures g'.slots.Keys == g.slots.Keys && g'.slots[z].key == g.slots[y].key && g'.slots[y].key == g.slots[z].key
    ensures KeysAgree(g, g', g.slots.Keys - {y, z})
    ensures RedBlack(g, N, sub, bh) ==> RedBlack(g', N, sub, bh)
    ensures DeleteInv(g, N, sub, bh, x, xp, xd) ==> DeleteInv(g', N, sub, bh, x, xp, xd)
  {
    var g1 := SetKey(g, z, g.slots[y].key);
    if RedBlack(g, N, sub, bh) {
      SetKeyKeeps(g, N, sub, bh, z, g.slots[y].key);
      SetKeyKeeps(g1, N, sub, bh, y, g.slots[z].key);
    }
    if DeleteInv(g, N, sub, bh, x, xp, xd) {
      SetKeyKeepsShort(g, N, sub, bh, x, xp, xd, z, g.slots[y].key);
      SetKeyKeepsShort(g1, N, sub, bh, x, xp, xd, y, g.slots[z].key);
    }
  }

  /**
   * The keys across the pointer variant's `delete`: splice (no key moves),
   * swap of y's and z's keys, repair (no key moves). Every other node keeps
   * its key and z ends with y's.
   */
  lemma SwapDeleteKeys<H>(g0: Graph<H>, gs: Graph<H>, gw: Graph<H>, gf: Graph<H>, N: set<H>, y: H, z: H)
    requires N <= g0.slots.Keys && y in g0.slots && z in g0.slots
    requires SameKeys(g0, gs) && SameKeys(gw, gf)
    requires gw.slots.Keys == gs.slots.Keys && KeysAgree(gs, gw, gs.slots.Keys - {y, z})
    requires y != z ==> gw.slots[z].key == gs.slots[y].key
    ensures KeysAgree(g0, gf, N - {y, z})
    ensures y != z ==> gf.slots[z].key == g0.slots[y].key
  {
  }
}
