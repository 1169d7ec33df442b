/**
 * Insertion, stated over the storage graph: the descent that finds where a
 * new key fits, the attachment of the new node as a red leaf, and the three
 * cases of the repair loop (red uncle; black uncle with z an inner child;
 * black uncle with z an outer child), each proved to keep the loop
 * invariant until the root is blackened.
 */
module RbInsert {
  import opened RbGraph
  import opened RbInvariants
  import opened RbRotate

  /** The attachment: `z.parent = y`, then z becomes the root (y the sentinel) or y's `d` child. */
  function Attach<H>(g: Graph<H>, z: H, y: H, d: Dir): (g': Graph<H>)
    requires z in g.slots && y in g.slots
    ensures g'.slots.Keys == g.slots.Keys && g'.nil == g.nil
  {
    var g1 := SetParent(g, z, y);
    if y == g.nil then g1.(root := z) else SetChild(g1, y, d, z)
  }

  /** Subtrees after attaching z below y: every subtree holding y gains z. */
  ghost function AttachSub<H>(sub: map<H, set<H>>, y: H, z: H): (sub': map<H, set<H>>) {
    (map a | a in sub :: if y in sub[a] then sub[a] + {z} else sub[a])[z := {z}]
  }

  /** z is a detached fresh node and the attachment point (y, d) is a free slot of the tree. */
  ghost predicate Attachable<H>(g: Graph<H>, N: set<H>, sub: map<H, set<H>>, z: H, y: H, d: Dir) {
    && Linked(g, N, sub)
    && z in g.slots && z != g.nil && z !in N
    && g.slots[z].left == g.nil && g.slots[z].right == g.nil
    && (y == g.nil ==> g.root == g.nil)
    && (y != g.nil ==> y in N && g.slots[y].Child(d) == g.nil)
  }

  /**
   * Key k belongs below a: at a itself it goes to side d, and whichever side
   * of a holds y, k is ordered against a's key as that side demands.
   */
  ghost predicate FitsAt<H>(g: Graph<H>, sub: map<H, set<H>>, a: H, y: H, d: Dir, k: int)
    requires a in g.slots
  {
    var r := g.slots[a];
    && (a == y && d == 0 ==> k <= r.key)
    && (a == y && d == 1 ==> r.key <= k)
    && (r.left in sub && y in sub[r.left] ==> k <= r.key)
    && (r.right in sub && y in sub[r.right] ==> r.key <= k)
  }

  /** Attaching key k at y's side d keeps the order with every node above y. */
  ghost predicate FitsBelow<H>(g: Graph<H>, N: set<H>, sub: map<H, set<H>>, y: H, d: Dir, k: int) {
    forall a :: a in N && a in g.slots && a in sub && y in sub[a] ==> FitsAt(g, sub, a, y, d, k)
  }

  /** Side d of node n is a place where key k may go. */
  predicate SideFor(key: int, d: Dir, k: int) {
    (d == 0 ==> k <= key) && (d == 1 ==> key <= k)
  }

  /** The descent starts at the root: only the root's subtree holds the root. */
  lemma FitsStart<H>(g: Graph<H>, N: set<H>, sub: map<H, set<H>>, d: Dir, k: int)
    requires Linked(g, N, sub) && g.root != g.nil && SideFor(g.slots[g.root].key, d, k)
    ensures FitsBelow(g, N, sub, g.root, d, k)
  {
    forall a | a in N && a in g.slots && a in sub && g.root in sub[a]
      ensures FitsAt(g, sub, a, g.root, d, k)
    {
      if a != g.root {
        RootOnlyInOwnSubtree(g, N, sub, a);
      }
      assert LinkedAt(g, N, sub, g.root);
    }
  }

  /** One step of the descent: from y down to its `d` child x, which then sends k to side d'. */
  lemma FitsDescend<H>(g: Graph<H>, N: set<H>, sub: map<H, set<H>>, y: H, d: Dir, k: int, d': Dir)
    requires Linked(g, N, sub) && y in N && LinkedAt(g, N, sub, y) && FitsBelow(g, N, sub, y, d, k)
    requires g.slots[y].Child(d) != g.nil
    requires SideFor(g.slots[g.slots[y].Child(d)].key, d', k)
    ensures FitsBelow(g, N, sub, g.slots[y].Child(d), d', k)
  {
    var x := g.slots[y].Child(d);
    assert LinkedAt(g, N, sub, y);
    assert LinkedAt(g, N, sub, x);
    forall a | a in N && a in g.slots && a in sub && x in sub[a]
      ensures FitsAt(g, sub, a, x, d', k)
    {
      assert LinkedAt(g, N, sub, a);
      var r := g.slots[a];
      if a == y {
        assert FitsAt(g, sub, y, y, d, k);
      } else if a != x {
        ParentInSubtree(g, N, sub, a, x);
        assert FitsAt(g, sub, a, y, d, k);
        if r.left != g.nil && x in sub[r.left] {
          assert x != r.left;
          ParentInSubtree(g, N, sub, r.left, x);
        }
        if r.right != g.nil && x in sub[r.right] {
          assert x != r.right;
          ParentInSubtree(g, N, sub, r.right, x);
        }
      }
    }
  }

  /**
   * The side insertion takes at a node holding `key` for a new key k: left
   * when k is below key, right when above; an equal k goes right when
   * `tiesRight` and left otherwise.
   */
  function InsertSide(key: int, k: int, tiesRight: bool): (d: Dir)
    ensures SideFor(key, d, k)
    ensures k != key ==> (d == 1 <==> key < k)
    ensures k == key ==> (d == 1 <==> tiesRight)
  {
    if tiesRight then (if k < key then 0 else 1) else (if key < k then 1 else 0)
  }

  /**
   * Insertion's descent from n: take the side InsertSide picks until that
   * side's link is the sentinel. The result is the last node passed, which
   * lies in n's subtree, and the free side the descent leaves it by.
   */
  ghost function InsertDescent<H>(g: Graph<H>, N: set<H>, sub: map<H, set<H>>, n: H, k: int, tiesRight: bool): (r: (H, Dir))
    requires Linked(g, N, sub) && n in N
    ensures r.0 in N && r.0 in sub[n] && g.slots[r.0].Child(r.1) == g.nil
    ensures r.1 == InsertSide(g.slots[r.0].key, k, tiesRight)
    decreases sub[n]
  {
    assert LinkedAt(g, N, sub, n);
    var d := InsertSide(g.slots[n].key, k, tiesRight);
    var c := g.slots[n].Child(d);
    if c == g.nil then (n, d) else InsertDescent(g, N, sub, c, k, tiesRight)
  }

  /** Every node on insertion's descent admits k on the side taken, so k fits where the descent ends. */
  lemma {:induction false} InsertDescentFits<H>(g: Graph<H>, N: set<H>, sub: map<H, set<H>>, n: H, k: int, tiesRight: bool)
    requires Linked(g, N, sub) && n in N
    requires FitsBelow(g, N, sub, n, InsertSide(g.slots[n].key, k, tiesRight), k)
    ensures var r := InsertDescent(g, N, sub, n, k, tiesRight); FitsBelow(g, N, sub, r.0, r.1, k)
    decreases sub[n]
  {
    assert LinkedAt(g, N, sub, n);
    var d := InsertSide(g.slots[n].key, k, tiesRight);
    var c := g.slots[n].Child(d);
    if c != g.nil {
      FitsDescend(g, N, sub, n, d, k, InsertSide(g.slots[c].key, k, tiesRight));
      InsertDescentFits(g, N, sub, c, k, tiesRight);
    }
  }

  /** From the root of a non-empty tree, insertion's descent ends at a free side where k fits. */
  lemma InsertDescentFitsRoot<H>(g: Graph<H>, N: set<H>, sub: map<H, set<H>>, k: int, tiesRight: bool)
    requires Linked(g, N, sub) && g.root != g.nil
    ensures var r := InsertDescent(g, N, sub, g.root, k, tiesRight); FitsBelow(g, N, sub, r.0, r.1, k)
  {
    FitsStart(g, N, sub, InsertSide(g.slots[g.root].key, k, tiesRight), k);
    InsertDescentFits(g, N, sub, g.root, k, tiesRight);
  }

  /** The descent reads only the records of tree nodes: two graphs that agree on those agree on it. */
  lemma {:induction false} InsertDescentFrame<H>(g: Graph<H>, g': Graph<H>, N: set<H>, sub: map<H, set<H>>, n: H, k: int, tiesRight: bool)
    requires Linked(g, N, sub) && Linked(g', N, sub) && n in N && g'.nil == g.nil
    requires forall m :: m in N ==> g'.slots[m] == g.slots[m]
    ensures InsertDescent(g', N, sub, n, k, tiesRight) == InsertDescent(g, N, sub, n, k, tiesRight)
    decreases sub[n]
  {
    assert LinkedAt(g, N, sub, n);
    var c := g.slots[n].Child(InsertSide(g.slots[n].key, k, tiesRight));
    if c != g.nil {
      InsertDescentFrame(g, g', N, sub, c, k, tiesRight);
    }
  }

  /** Attaching a fresh leaf keeps the tree linked, with z added to every subtree above it. */
  lemma AttachLinked<H>(g: Graph<H>, N: set<H>, sub: map<H, set<H>>, z: H, y: H, d: Dir)
    requires Attachable(g, N, sub, z, y, d)
    ensures Linked(Attach(g, z, y, d), N + {z}, AttachSub(sub, y, z))
  {
    var g' := Attach(g, z, y, d);
    var sub' := AttachSub(sub, y, z);
    if y != g.nil {
      assert LinkedAt(g, N, sub, y);
    }
    forall n | n in N + {z} ensures LinkedAt(g', N + {z}, sub', n) {
      if n == z {
        assert sub'[g.nil] == {};
      } else {
        AttachLinkedAt(g, N, sub, z, y, d, n);
      }
    }
    if y != g.nil {
      assert LinkedAt(g, N, sub, g.root);
    }
  }

  lemma AttachLinkedAt<H>(g: Graph<H>, N: set<H>, sub: map<H, set<H>>, z: H, y: H, d: Dir, n: H)
    requires Attachable(g, N, sub, z, y, d) && n in N
    ensures LinkedAt(Attach(g, z, y, d), N + {z}, AttachSub(sub, y, z), n)
  {
    var g' := Attach(g, z, y, d);
    var sub' := AttachSub(sub, y, z);
    assert LinkedAt(g, N, sub, n);
    var r := g.slots[n];
    if n == y {
      assert sub[r.Child(d)] == {};
      assert y !in sub[r.Child(Flip(d))];
    } else {
      assert g'.slots[n] == r;
      assert y in sub[n] <==> y in sub[r.left] || y in sub[r.right];
      if n != g.root {
        assert LinkedAt(g, N, sub, r.parent);
      }
    }
  }

  /** Attaching where k fits keeps the descent order. */
  lemma AttachOrdered<H>(g: Graph<H>, N: set<H>, sub: map<H, set<H>>, z: H, y: H, d: Dir)
    requires Attachable(g, N, sub, z, y, d) && Ordered(g, N, sub)
    requires y != g.nil ==> FitsBelow(g, N, sub, y, d, g.slots[z].key)
    ensures Ordered(Attach(g, z, y, d), N + {z}, AttachSub(sub, y, z))
  {
    forall n | n in N + {z} ensures OrderedAt(Attach(g, z, y, d), AttachSub(sub, y, z), n) {
      if n != z {
        AttachOrderedAt(g, N, sub, z, y, d, n);
      }
    }
  }

  lemma AttachOrderedAt<H>(g: Graph<H>, N: set<H>, sub: map<H, set<H>>, z: H, y: H, d: Dir, n: H)
    requires Attachable(g, N, sub, z, y, d) && Ordered(g, N, sub) && n in N
    requires y != g.nil ==> FitsBelow(g, N, sub, y, d, g.slots[z].key)
    ensures OrderedAt(Attach(g, z, y, d), AttachSub(sub, y, z), n)
  {
    var g' := Attach(g, z, y, d);
    var sub' := AttachSub(sub, y, z);
    var k := g.slots[z].key;
    assert LinkedAt(g, N, sub, n);
    assert OrderedAt(g, sub, n);
    var r := g.slots[n];
    if y != g.nil && y in sub[n] {
      assert FitsAt(g, sub, n, y, d, k);
    }
    assert g'.slots[n].key == r.key;
    var r' := g'.slots[n];
    forall m | m in sub'[r'.left] ensures m in g'.slots && g'.slots[m].key <= r'.key {
      if m != z {
        assert m in sub[r.left];
      }
    }
    forall m | m in sub'[r'.right] ensures m in g'.slots && r'.key <= g'.slots[m].key {
      if m != z {
        assert m in sub[r.right];
      }
    }
  }

  /** The repair loop's invariant: the only red-red edge enters z, and only z may be a red root. */
  ghost predicate InsertInv<H>(g: Graph<H>, N: set<H>, sub: map<H, set<H>>, bh: map<H, nat>, z: H) {
    && Linked(g, N, sub) && z in N && Red(g, z) && !Red(g, g.nil)
    && RedEdges(g, N, g.nil, z)
    && BlackEdges(g, N, bh, g.nil, 0)
    && (Red(g, g.root) ==> g.root == z)
  }

  /** A new red leaf in a red-black tree sets up the repair loop's invariant. */
  lemma AttachRed<H>(g: Graph<H>, N: set<H>, sub: map<H, set<H>>, bh: map<H, nat>, z: H, y: H, d: Dir)
    requires Attachable(g, N, sub, z, y, d) && RedBlack(g, N, sub, bh)
    ensures InsertInv(SetRed(Attach(g, z, y, d), z, true), N + {z}, AttachSub(sub, y, z), bh[z := 1], z)
  {
    var g1 := Attach(g, z, y, d);
    var g' := SetRed(g1, z, true);
    var sub' := AttachSub(sub, y, z);
    AttachLinked(g, N, sub, z, y, d);
    SetRedSameLinks(g1, z, true);
    SameLinksKeep(g1, g', N + {z}, sub');
    forall n | n in N + {z}
      ensures RedEdgeAt(g', n, g.nil, z)
      ensures BlackAt(g', bh[z := 1], n, g.nil, 0)
    {
      if n != z {
        assert LinkedAt(g, N, sub, n);
        assert RedEdgeAt(g, n, g.nil, g.nil);
        assert BlackAt(g, bh, n, g.nil, 0);
        assert BlackEdge(g, bh, n, 0, 0) && BlackEdge(g, bh, n, 1, 0);
      }
      AttachRedAt(g, bh, z, y, d, n, 0);
      AttachRedAt(g, bh, z, y, d, n, 1);
    }
    if y != g.nil {
      assert LinkedAt(g, N, sub, y);
    }
  }

  /** The records and colours after attaching z and colouring it red. */
  lemma AttachRecords<H>(g: Graph<H>, z: H, y: H, d: Dir)
    requires z in g.slots && y in g.slots && z != g.nil && y != z
    ensures var g' := SetRed(Attach(g, z, y, d), z, true);
            && g'.slots[z] == g.slots[z].(parent := y, red := true)
            && (y != g.nil && y != z ==> g'.slots[y] == g.slots[y].WithChild(d, z))
            && (forall m :: m in g.slots && m != z && (m != y || y == g.nil) ==> g'.slots[m] == g.slots[m])
  {
  }

  lemma AttachRedAt<H>(g: Graph<H>, bh: map<H, nat>, z: H, y: H, d: Dir, n: H, e: Dir)
    requires z in g.slots && y in g.slots && z != g.nil && n in g.slots && y != z
    requires !Red(g, g.nil) && g.nil in bh && bh[g.nil] == 0
    requires n == z ==> g.slots[z].left == g.nil && g.slots[z].right == g.nil
    requires n != z ==> && g.slots[n].left != z && g.slots[n].right != z
                        && RedEdgeAt(g, n, g.nil, g.nil) && BlackEdge(g, bh, n, e, 0)
                        && (n == y ==> g.slots[y].Child(d) == g.nil)
    ensures var g' := SetRed(Attach(g, z, y, d), z, true);
            && RedEdgeAt(g', n, g.nil, z) && BlackEdge(g', bh[z := 1], n, e, 0)
  {
    AttachRecords(g, z, y, d);
    var g' := SetRed(Attach(g, z, y, d), z, true);
    var c := g.slots[n].Child(e);
    if n == z {
      assert g'.slots[n].Child(e) == g.nil;
    } else if n == y && e == d {
      assert g'.slots[n].Child(e) == z;
    } else {
      assert g'.slots[n].Child(e) == c;
      assert c != z;
    }
  }

  /** The handles the loop body reads, given that z's parent p is red. */
  lemma InsertFacts<H>(g: Graph<H>, N: set<H>, sub: map<H, set<H>>, bh: map<H, nat>, z: H, p: H)
    requires InsertInv(g, N, sub, bh, z) && p == g.slots[z].parent && Red(g, p)
    ensures z != g.root && p in N && p != z && p != g.root
    ensures g.slots[p].left == z || g.slots[p].right == z
    ensures var pp := g.slots[p].parent;
            && pp in N && pp in bh && pp != p && pp != z && !Red(g, pp)
            && (g.slots[pp].left == p) != (g.slots[pp].right == p)
            && var u := g.slots[pp].Child(if g.slots[pp].left == p then 1 else 0);
            && u != p && u != z && u != pp
  {
    assert LinkedAt(g, N, sub, z);
    assert LinkedAt(g, N, sub, p);
    var pp := g.slots[p].parent;
    assert LinkedAt(g, N, sub, pp);
    assert RedEdgeAt(g, pp, g.nil, z);
    assert BlackAt(g, bh, pp, g.nil, 0);
    SubtreeBelowParent(g, N, sub, z);
    SubtreeBelowParent(g, N, sub, p);
  }

  /** Case 1, red uncle u: p and u turn black, pp red, and the red-red edge moves up to pp. */
  lemma InsertRedUncle<H>(g: Graph<H>, N: set<H>, sub: map<H, set<H>>, bh: map<H, nat>, z: H, p: H, pp: H, u: H)
    requires InsertInv(g, N, sub, bh, z) && p == g.slots[z].parent && Red(g, p)
    requires p in g.slots && pp == g.slots[p].parent && pp in g.slots
    requires u == g.slots[pp].Child(if g.slots[pp].left == p then 1 else 0) && Red(g, u)
    requires pp in bh
    ensures InsertInv(SetRed(SetRed(SetRed(g, p, false), u, false), pp, true), N, sub, bh[pp := bh[pp] + 1], pp)
  {
    InsertFacts(g, N, sub, bh, z, p);
    var g1 := SetRed(g, p, false);
    var g2 := SetRed(g1, u, false);
    var g' := SetRed(g2, pp, true);
    SetRedSameLinks(g, p, false);
    SetRedSameLinks(g1, u, false);
    SetRedSameLinks(g2, pp, true);
    SameLinksKeep(g, g1, N, sub);
    SameLinksKeep(g1, g2, N, sub);
    SameLinksKeep(g2, g', N, sub);
    InsertRedUncleEdges(g, N, sub, bh, z, p, pp, u);
    assert u != g.root by {
      assert LinkedAt(g, N, sub, pp);
      assert g.slots[g.root].parent == g.nil;
    }
  }

  lemma InsertRedUncleEdges<H>(g: Graph<H>, N: set<H>, sub: map<H, set<H>>, bh: map<H, nat>, z: H, p: H, pp: H, u: H)
    requires InsertInv(g, N, sub, bh, z) && p == g.slots[z].parent && Red(g, p)
    requires p in g.slots && pp == g.slots[p].parent && pp in g.slots
    requires u == g.slots[pp].Child(if g.slots[pp].left == p then 1 else 0) && Red(g, u)
    requires pp in bh
    ensures var g' := SetRed(SetRed(SetRed(g, p, false), u, false), pp, true);
            && RedEdges(g', N, g.nil, pp) && BlackEdges(g', N, bh[pp := bh[pp] + 1], g.nil, 0)
  {
    InsertFacts(g, N, sub, bh, z, p);
    var g' := SetRed(SetRed(SetRed(g, p, false), u, false), pp, true);
    var bh' := bh[pp := bh[pp] + 1];
    assert LinkedAt(g, N, sub, pp);
    assert BlackAt(g, bh, pp, g.nil, 0);
    assert BlackEdge(g, bh, pp, 0, 0) && BlackEdge(g, bh, pp, 1, 0);
    forall n | n in N
      ensures RedEdgeAt(g', n, g.nil, pp)
      ensures BlackAt(g', bh', n, g.nil, 0)
    {
      assert LinkedAt(g, N, sub, n);
      assert RedEdgeAt(g, n, g.nil, z);
      assert BlackAt(g, bh, n, g.nil, 0);
      assert BlackEdge(g, bh, n, 0, 0) && BlackEdge(g, bh, n, 1, 0);
      InsertRedUncleAt(g, bh, z, p, pp, u, n);
    }
  }

  lemma InsertRedUncleAt<H>(g: Graph<H>, bh: map<H, nat>, z: H, p: H, pp: H, u: H, n: H)
    requires z in g.slots && p in g.slots && pp in g.slots && u in g.slots && n in g.slots && pp in bh
    requires g.slots[z].parent == p && g.slots[p].parent == pp && g.slots[u].parent == pp
    requires p != pp && u != pp && p != u && z != p && z != pp && z != u && z != g.nil && u != g.nil
    requires Red(g, p) && Red(g, u) && !Red(g, pp) && !Red(g, g.nil)
    requires g.slots[pp].left in {p, u} && g.slots[pp].right in {p, u}
    requires BlackEdge(g, bh, pp, 0, 0) && BlackEdge(g, bh, pp, 1, 0)
    requires RedEdgeAt(g, n, g.nil, z) && BlackEdge(g, bh, n, 0, 0) && BlackEdge(g, bh, n, 1, 0)
    requires g.slots[n].left in g.slots && g.slots[n].right in g.slots
    requires g.slots[n].left != g.nil ==> g.slots[g.slots[n].left].parent == n
    requires g.slots[n].right != g.nil ==> g.slots[g.slots[n].right].parent == n
    ensures var g' := SetRed(SetRed(SetRed(g, p, false), u, false), pp, true);
            var bh' := bh[pp := bh[pp] + 1];
            && RedEdgeAt(g', n, g.nil, pp)
            && BlackEdge(g', bh', n, 0, 0) && BlackEdge(g', bh', n, 1, 0)
  {
  }

  /**
   * Case 2, black uncle and z an inner child: z = p, rotate(z, dir ^ 1). The
   * old z takes p's place under pp and p, now z, hangs below it on the outer
   * side, so the next step is case 3 with the same `dir`.
   */
  lemma InsertInner<H>(g: Graph<H>, N: set<H>, sub: map<H, set<H>>, bh: map<H, nat>, z: H, p: H, pp: H, dir: Dir)
    requires InsertInv(g, N, sub, bh, z) && p == g.slots[z].parent && Red(g, p)
    requires p in g.slots && pp == g.slots[p].parent && pp in g.slots
    requires dir == (if g.slots[pp].left == p then 1 else 0) && !Red(g, g.slots[pp].Child(dir))
    requires z == g.slots[p].Child(dir)
    ensures Rotatable(g, N, sub, p, Flip(dir))
    ensures var g' := Rotate(g, p, Flip(dir));
            && InsertInv(g', N, RotateSub(g, sub, p, Flip(dir)), bh, p)
            && g'.slots[p].parent == z && g'.slots[z].parent == pp
            && g'.slots[pp].Child(Flip(dir)) == z && g'.slots[pp].Child(dir) == g.slots[pp].Child(dir)
            && dir == (if g'.slots[pp].left == z then 1 else 0)
            && p == g'.slots[z].Child(Flip(dir))
  {
    InsertFacts(g, N, sub, bh, z, p);
    assert LinkedAt(g, N, sub, p);
    assert LinkedAt(g, N, sub, pp);
    RotateShape(g, N, sub, p, Flip(dir));
    RotateDistinct(g, N, sub, p, Flip(dir));
    RotateLinked(g, N, sub, p, Flip(dir));
    var g' := Rotate(g, p, Flip(dir));
    InsertInnerEdges(g, N, sub, bh, z, p, pp, dir);
    assert g.root != pp ==> g.root != z && g.root != p;
  }

  lemma InsertInnerEdges<H>(g: Graph<H>, N: set<H>, sub: map<H, set<H>>, bh: map<H, nat>, z: H, p: H, pp: H, dir: Dir)
    requires InsertInv(g, N, sub, bh, z) && p == g.slots[z].parent && Red(g, p)
    requires p in g.slots && pp == g.slots[p].parent && pp in g.slots
    requires dir == (if g.slots[pp].left == p then 1 else 0) && !Red(g, g.slots[pp].Child(dir))
    requires z == g.slots[p].Child(dir)
    ensures Rotatable(g, N, sub, p, Flip(dir))
    ensures var g' := Rotate(g, p, Flip(dir));
            RedEdges(g', N, g.nil, p) && BlackEdges(g', N, bh, g.nil, 0)
  {
    InsertFacts(g, N, sub, bh, z, p);
    assert LinkedAt(g, N, sub, p);
    assert LinkedAt(g, N, sub, pp);
    assert LinkedAt(g, N, sub, z);
    RotateShape(g, N, sub, p, Flip(dir));
    RotateDistinct(g, N, sub, p, Flip(dir));
    var g' := Rotate(g, p, Flip(dir));
    assert Promoted(g, p, Flip(dir)) == z;
    assert BlackAt(g, bh, p, g.nil, 0);
    assert RedEdgeAt(g, p, g.nil, z) && BlackEdge(g, bh, p, 0, 0) && BlackEdge(g, bh, p, 1, 0);
    assert BlackAt(g, bh, z, g.nil, 0);
    assert RedEdgeAt(g, z, g.nil, z) && BlackEdge(g, bh, z, 0, 0) && BlackEdge(g, bh, z, 1, 0);
    assert BlackAt(g, bh, pp, g.nil, 0);
    assert BlackEdge(g, bh, pp, 0, 0) && BlackEdge(g, bh, pp, 1, 0);
    forall n | n in N
      ensures RedEdgeAt(g', n, g.nil, p)
      ensures BlackAt(g', bh, n, g.nil, 0)
    {
      assert LinkedAt(g, N, sub, n);
      assert BlackAt(g, bh, n, g.nil, 0);
      assert RedEdgeAt(g, n, g.nil, z) && BlackEdge(g, bh, n, 0, 0) && BlackEdge(g, bh, n, 1, 0);
      InsertInnerAt(g, g', bh, z, p, pp, dir, n);
    }
  }

  lemma InsertInnerAt<H>(g: Graph<H>, g': Graph<H>, bh: map<H, nat>, z: H, p: H, pp: H, dir: Dir, n: H)
    requires RotatedShape(g, g', p, Flip(dir)) && Promoted(g, p, Flip(dir)) == z
    requires g.slots[p].parent == pp && pp != g.nil && g.slots[pp].Child(Flip(dir)) == p
    requires p != z && pp != p && pp != z && Moved(g, p, Flip(dir)) != z && Moved(g, p, Flip(dir)) != p
    requires Moved(g, p, Flip(dir)) != pp && z != g.nil
    requires Red(g, p) && Red(g, z) && !Red(g, pp) && !Red(g, g.nil) && g.nil in bh && bh[g.nil] == 0
    requires RedEdgeAt(g, p, g.nil, z) && BlackEdge(g, bh, p, 0, 0) && BlackEdge(g, bh, p, 1, 0)
    requires RedEdgeAt(g, z, g.nil, z) && BlackEdge(g, bh, z, 0, 0) && BlackEdge(g, bh, z, 1, 0)
    requires BlackEdge(g, bh, pp, 0, 0) && BlackEdge(g, bh, pp, 1, 0)
    requires n in g.slots && RedEdgeAt(g, n, g.nil, z) && BlackEdge(g, bh, n, 0, 0) && BlackEdge(g, bh, n, 1, 0)
    requires n != p ==> g.slots[n].left != z && g.slots[n].right != z
    requires g.slots[p].Child(Flip(dir)) != z
    ensures RedEdgeAt(g', n, g.nil, p) && BlackEdge(g', bh, n, 0, 0) && BlackEdge(g', bh, n, 1, 0)
  {
    if n != p && n != z && n != pp {
      RotatedChildrenElsewhere(g, g', p, Flip(dir), n);
    }
  }

  /**
   * Case 3, black uncle and z an outer child: p turns black, pp red, and
   * rotate(pp, dir) lifts p into pp's place. z's parent is now black, so the
   * loop ends.
   */
  lemma InsertOuter<H>(g: Graph<H>, N: set<H>, sub: map<H, set<H>>, bh: map<H, nat>, z: H, p: H, pp: H, dir: Dir)
    requires InsertInv(g, N, sub, bh, z) && p == g.slots[z].parent && Red(g, p)
    requires p in g.slots && pp == g.slots[p].parent && pp in g.slots
    requires dir == (if g.slots[pp].left == p then 1 else 0) && !Red(g, g.slots[pp].Child(dir))
    requires z == g.slots[p].Child(Flip(dir))
    ensures var g2 := SetRed(SetRed(g, p, false), pp, true);
            && Rotatable(g2, N, sub, pp, dir)
            && var g' := Rotate(g2, pp, dir);
            && InsertInv(g', N, RotateSub(g2, sub, pp, dir), bh, z)
            && g'.slots[z].parent == p && !Red(g', p)
  {
    InsertFacts(g, N, sub, bh, z, p);
    var g1 := SetRed(g, p, false);
    var g2 := SetRed(g1, pp, true);
    SetRedSameLinks(g, p, false);
    SetRedSameLinks(g1, pp, true);
    SameLinksKeep(g, g1, N, sub);
    SameLinksKeep(g1, g2, N, sub);
    assert LinkedAt(g, N, sub, pp);
    assert LinkedAt(g, N, sub, z);
    RotateShape(g2, N, sub, pp, dir);
    RotateDistinct(g2, N, sub, pp, dir);
    RotateLinked(g2, N, sub, pp, dir);
    var g' := Rotate(g2, pp, dir);
    assert Promoted(g2, pp, dir) == p;
    InsertOuterEdges(g, N, sub, bh, z, p, pp, dir);
    RotatedKeepsKeys(g2, g', N, sub, pp, dir);
    assert g'.slots[z] == g2.slots[z] && g'.slots[z].parent == p;
    assert Red(g', z) && !Red(g', p) && !Red(g', g.nil);
    assert !Red(g', g'.root) by {
      if g'.root != p {
        assert g'.root == g.root && g.root != pp && g.root != z;
      }
    }
  }

  lemma InsertOuterEdges<H>(g: Graph<H>, N: set<H>, sub: map<H, set<H>>, bh: map<H, nat>, z: H, p: H, pp: H, dir: Dir)
    requires InsertInv(g, N, sub, bh, z) && p == g.slots[z].parent && Red(g, p)
    requires p in g.slots && pp == g.slots[p].parent && pp in g.slots
    requires dir == (if g.slots[pp].left == p then 1 else 0) && !Red(g, g.slots[pp].Child(dir))
    requires z == g.slots[p].Child(Flip(dir))
    ensures var g2 := SetRed(SetRed(g, p, false), pp, true);
            && Rotatable(g2, N, sub, pp, dir)
            && var g' := Rotate(g2, pp, dir);
            && RedEdges(g', N, g.nil, z) && BlackEdges(g', N, bh, g.nil, 0)
  {
    InsertFacts(g, N, sub, bh, z, p);
    var g1 := SetRed(g, p, false);
    var g2 := SetRed(g1, pp, true);
    SetRedSameLinks(g, p, false);
    SetRedSameLinks(g1, pp, true);
    SameLinksKeep(g, g1, N, sub);
    SameLinksKeep(g1, g2, N, sub);
    assert LinkedAt(g, N, sub, p);
    assert LinkedAt(g, N, sub, pp);
    assert LinkedAt(g, N, sub, z);
    RotateShape(g2, N, sub, pp, dir);
    RotateDistinct(g2, N, sub, pp, dir);
    var g' := Rotate(g2, pp, dir);
    assert Promoted(g2, pp, dir) == p;
    assert BlackAt(g, bh, p, g.nil, 0);
    assert RedEdgeAt(g, p, g.nil, z) && BlackEdge(g, bh, p, 0, 0) && BlackEdge(g, bh, p, 1, 0);
    assert BlackAt(g, bh, pp, g.nil, 0);
    assert BlackEdge(g, bh, pp, 0, 0) && BlackEdge(g, bh, pp, 1, 0);
    assert OuterSetup(g, g2, g', bh, z, p, pp, dir);
    OuterNodes(g, N, sub, bh, z, p, pp);
    InsertOuterAll(g, g2, g', N, bh, z, p, pp, dir);
  }

  lemma OuterNodes<H>(g: Graph<H>, N: set<H>, sub: map<H, set<H>>, bh: map<H, nat>, z: H, p: H, pp: H)
    requires InsertInv(g, N, sub, bh, z) && p == g.slots[z].parent && Red(g, p)
    requires p in g.slots && pp == g.slots[p].parent && pp in g.slots
    ensures forall n :: n in N ==> OuterNode(g, bh, z, p, pp, n)
  {
    InsertFacts(g, N, sub, bh, z, p);
    forall n | n in N ensures OuterNode(g, bh, z, p, pp, n) {
      assert LinkedAt(g, N, sub, n);
      assert BlackAt(g, bh, n, g.nil, 0);
      assert RedEdgeAt(g, n, g.nil, z) && BlackEdge(g, bh, n, 0, 0) && BlackEdge(g, bh, n, 1, 0);
    }
  }

  /** What case 3 needs to know about the handles it touches. */
  ghost predicate OuterSetup<H>(g: Graph<H>, g2: Graph<H>, g': Graph<H>, bh: map<H, nat>, z: H, p: H, pp: H, dir: Dir) {
    && p in g.slots && pp in g.slots && z in g.slots && g2 == SetRed(SetRed(g, p, false), pp, true)
    && g.slots[pp].Child(Flip(dir)) == p
    && RotatedShape(g2, g', pp, dir) && Promoted(g2, pp, dir) == p
    && g.slots[p].parent == pp && g.slots[z].parent == p && g.slots[p].Child(Flip(dir)) == z
    && p != z && pp != p && pp != z && z != g.nil && p != g.nil && pp != g.nil
    && Moved(g2, pp, dir) != z && Moved(g2, pp, dir) != p && Moved(g2, pp, dir) != pp
    && g.slots[pp].parent != p && g.slots[pp].parent != pp && g.slots[pp].parent != z
    && g.slots[pp].parent in g.slots
    && (g.slots[pp].parent != g.nil ==>
          (g.slots[g.slots[pp].parent].left == pp) != (g.slots[g.slots[pp].parent].right == pp))
    && g.slots[pp].Child(dir) != p && g.slots[pp].Child(dir) != pp && !Red(g, g.slots[pp].Child(dir))
    && Red(g, p) && Red(g, z) && !Red(g, pp) && !Red(g, g.nil) && g.nil in bh && bh[g.nil] == 0
    && RedEdgeAt(g, p, g.nil, z) && BlackEdge(g, bh, p, 0, 0) && BlackEdge(g, bh, p, 1, 0)
    && BlackEdge(g, bh, pp, 0, 0) && BlackEdge(g, bh, pp, 1, 0)
  }

  /** What case 3 needs to know about one node n of the tree. */
  ghost predicate OuterNode<H>(g: Graph<H>, bh: map<H, nat>, z: H, p: H, pp: H, n: H)
    requires pp in g.slots
  {
    && n in g.slots && n != g.nil
    && RedEdgeAt(g, n, g.nil, z) && BlackEdge(g, bh, n, 0, 0) && BlackEdge(g, bh, n, 1, 0)
    && (n != pp ==> g.slots[n].left != p && g.slots[n].right != p)
    && (n != p ==> g.slots[n].left != z && g.slots[n].right != z)
    && (n != g.slots[pp].parent ==> g.slots[n].left != pp && g.slots[n].right != pp)
  }

  lemma InsertOuterAll<H>(g: Graph<H>, g2: Graph<H>, g': Graph<H>, N: set<H>, bh: map<H, nat>, z: H, p: H, pp: H, dir: Dir)
    requires OuterSetup(g, g2, g', bh, z, p, pp, dir)
    requires forall n :: n in N ==> OuterNode(g, bh, z, p, pp, n)
    ensures RedEdges(g', N, g.nil, z) && BlackEdges(g', N, bh, g.nil, 0)
  {
    forall n | n in N
      ensures RedEdgeAt(g', n, g.nil, z)
      ensures BlackAt(g', bh, n, g.nil, 0)
    {
      InsertOuterAt(g, g2, g', bh, z, p, pp, dir, n);
    }
  }

  lemma InsertOuterAt<H>(g: Graph<H>, g2: Graph<H>, g': Graph<H>, bh: map<H, nat>, z: H, p: H, pp: H, dir: Dir, n: H)
    requires OuterSetup(g, g2, g', bh, z, p, pp, dir) && OuterNode(g, bh, z, p, pp, n)
    ensures RedEdgeAt(g', n, g.nil, z) && BlackEdge(g', bh, n, 0, 0) && BlackEdge(g', bh, n, 1, 0)
  {
    var b := Moved(g2, pp, dir);
    assert b == g.slots[p].Child(dir);
    if n == pp {
      assert g'.slots[pp].Child(dir) == g.slots[pp].Child(dir);
      assert g'.slots[pp].Child(Flip(dir)) == b;
      assert RedEdgeAt(g', n, g.nil, z);
      assert BlackEdge(g', bh, n, dir, 0);
      assert BlackEdge(g', bh, n, Flip(dir), 0);
    } else if n == p {
      assert RedEdgeAt(g', n, g.nil, z);
      assert BlackEdge(g', bh, n, dir, 0);
      assert BlackEdge(g', bh, n, Flip(dir), 0);
    } else if n == g.slots[pp].parent {
      assert RedEdgeAt(g', n, g.nil, z);
      assert BlackEdge(g', bh, n, 0, 0);
      assert BlackEdge(g', bh, n, 1, 0);
    } else {
      RotatedChildrenElsewhere(g2, g', pp, dir, n);
      assert RedEdgeAt(g', n, g.nil, z);
      assert BlackEdge(g', bh, n, 0, 0);
      assert BlackEdge(g', bh, n, 1, 0);
    }
  }

  /** When z's parent is black the loop stops, and blackening the root gives a red-black tree. */
  lemma InsertDone<H>(g: Graph<H>, N: set<H>, sub: map<H, set<H>>, bh: map<H, nat>, z: H)
    requires InsertInv(g, N, sub, bh, z) && !Red(g, g.slots[z].parent)
    ensures g.root in N
    ensures RedBlack(SetRed(g, g.root, false), N, sub, bh)
  {
    var g' := SetRed(g, g.root, false);
    SetRedSameLinks(g, g.root, false);
    SameLinksKeep(g, g', N, sub);
    assert g.root != g.nil;
    assert g.slots[g.root].parent == g.nil;
    forall n | n in N
      ensures RedEdgeAt(g', n, g.nil, g.nil)
      ensures BlackAt(g', bh, n, g.nil, 0)
    {
      assert LinkedAt(g, N, sub, n);
      assert BlackAt(g, bh, n, g.nil, 0);
      assert RedEdgeAt(g, n, g.nil, z) && BlackEdge(g, bh, n, 0, 0) && BlackEdge(g, bh, n, 1, 0);
      InsertDoneAt(g, bh, z, n);
    }
  }

  lemma InsertDoneAt<H>(g: Graph<H>, bh: map<H, nat>, z: H, n: H)
    requires z in g.slots && !Red(g, g.slots[z].parent) && g.root in g.slots && g.root != g.nil
    requires g.slots[g.root].parent == g.nil && n != g.nil
    requires n in g.slots && RedEdgeAt(g, n, g.nil, z) && BlackEdge(g, bh, n, 0, 0) && BlackEdge(g, bh, n, 1, 0)
    requires g.slots[n].left in g.slots && g.slots[n].right in g.slots
    requires g.slots[n].left != g.nil ==> g.slots[g.slots[n].left].parent == n
    requires g.slots[n].right != g.nil ==> g.slots[g.slots[n].right].parent == n
    ensures var g' := SetRed(g, g.root, false);
            RedEdgeAt(g', n, g.nil, g.nil) && BlackEdge(g', bh, n, 0, 0) && BlackEdge(g', bh, n, 1, 0)
  {
  }
}
