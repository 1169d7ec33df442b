/**
 * What `rotate(x, dir)` does to a linked tree: which records change and how,
 * that the tree stays linked and ordered, and that the opposite rotation at
 * the promoted node undoes it.
 */
module RbRotate {
  import opened RbGraph
  import opened RbInvariants

  /** The subtree sets after `rotate(x, dir)`: x keeps its `dir` side and gains y's, y gets x's old set. */
  ghost function RotateSub<H>(g: Graph<H>, sub: map<H, set<H>>, x: H, dir: Dir): (sub': map<H, set<H>>)
    requires x in g.slots && x in sub
    requires g.slots[x].Child(dir) in sub && g.slots[x].Child(Flip(dir)) in g.slots
    requires g.slots[g.slots[x].Child(Flip(dir))].Child(dir) in sub
  {
    var y := g.slots[x].Child(Flip(dir));
    var b := g.slots[y].Child(dir);
    sub[x := {x} + sub[g.slots[x].Child(dir)] + sub[b]][y := sub[x]]
  }

  /** The precondition every caller of `rotate` meets: x is a tree node with a real `dir ^ 1` child. */
  ghost predicate Rotatable<H>(g: Graph<H>, N: set<H>, sub: map<H, set<H>>, x: H, dir: Dir) {
    && Linked(g, N, sub) && x in N && x in g.slots
    && g.slots[x].Child(Flip(dir)) != g.nil
    && LinkedAt(g, N, sub, x) && LinkedAt(g, N, sub, g.slots[x].Child(Flip(dir)))
  }

  lemma RotatableCan<H>(g: Graph<H>, N: set<H>, sub: map<H, set<H>>, x: H, dir: Dir)
    requires Rotatable(g, N, sub, x, dir)
    ensures CanRotate(g, x, dir)
    ensures g.slots[x].Child(Flip(dir)) in N
  {
    assert LinkedAt(g, N, sub, x);
    assert LinkedAt(g, N, sub, g.slots[x].Child(Flip(dir)));
  }

  /** The node `rotate(x, dir)` promotes: x's `dir ^ 1` child. */
  function Promoted<H>(g: Graph<H>, x: H, dir: Dir): (y: H)
    requires x in g.slots
  {
    g.slots[x].Child(Flip(dir))
  }

  /** The subtree that changes sides: the promoted node's `dir` child. */
  function Moved<H>(g: Graph<H>, x: H, dir: Dir): (b: H)
    requires CanRotate(g, x, dir)
  {
    g.slots[Promoted(g, x, dir)].Child(dir)
  }

  /** The handles a rotation touches are pairwise distinct, and x sits in exactly one slot of its parent. */
  lemma RotateDistinct<H>(g: Graph<H>, N: set<H>, sub: map<H, set<H>>, x: H, dir: Dir)
    requires Rotatable(g, N, sub, x, dir)
    ensures CanRotate(g, x, dir)
    ensures Promoted(g, x, dir) in N
    ensures x != Promoted(g, x, dir) && Moved(g, x, dir) != x && Moved(g, x, dir) != Promoted(g, x, dir)
    ensures g.slots[x].parent != x && g.slots[x].parent != Promoted(g, x, dir)
    ensures g.slots[x].parent != g.nil ==> g.slots[x].parent != Moved(g, x, dir)
    ensures g.slots[x].parent == g.nil <==> x == g.root
    ensures g.slots[x].parent != g.nil ==>
              g.slots[x].parent in N && (g.slots[g.slots[x].parent].left == x) != (g.slots[g.slots[x].parent].right == x)
  {
    RotatableCan(g, N, sub, x, dir);
    var y := g.slots[x].Child(Flip(dir));
    var xp := g.slots[x].parent;
    assert LinkedAt(g, N, sub, x);
    assert LinkedAt(g, N, sub, y);
    if x != g.root {
      SubtreeBelowParent(g, N, sub, x);
      assert LinkedAt(g, N, sub, xp);
      if xp in sub[x] {
        SubtreeNested(g, N, sub, x, xp);
      }
    }
  }

  /**
   * The records a rotation leaves behind, stated of any g': with y the
   * promoted node, b the moved subtree and xp x's parent, x keeps its `dir`
   * child, takes b on its other side and hangs from y; y takes xp as parent
   * and x as its `dir` child; b (unless the sentinel) is reparented to x;
   * xp's slot that held x now holds y, or y becomes the root; every other
   * record, the sentinel's included, is unchanged, and no key or colour
   * changes.
   */
  ghost predicate RotatedShape<H>(g: Graph<H>, g': Graph<H>, x: H, dir: Dir) {
    && CanRotate(g, x, dir)
    && g'.slots.Keys == g.slots.Keys && g'.nil == g.nil && g.nil in g.slots
    && var y := Promoted(g, x, dir);
    && var b := Moved(g, x, dir);
    && var xp := g.slots[x].parent;
    && g'.slots[x] == g.slots[x].WithChild(Flip(dir), b).(parent := y)
    && g'.slots[y] == g.slots[y].WithChild(dir, x).(parent := xp)
    && (b != g.nil ==> g'.slots[b] == g.slots[b].(parent := x))
    && (xp != g.nil ==> g'.slots[xp] == g.slots[xp].WithChild(if g.slots[xp].left == x then 0 else 1, y))
    && g'.root == (if xp == g.nil then y else g.root)
    && g'.slots[g.nil] == g.slots[g.nil]
    && (forall m :: m in g.slots && m != x && m != y && m != b && m != xp ==> g'.slots[m] == g.slots[m])
  }

  /** The records `rotate(x, dir)` leaves behind are those RotatedShape describes. */
  lemma RotateShape<H>(g: Graph<H>, N: set<H>, sub: map<H, set<H>>, x: H, dir: Dir)
    requires Rotatable(g, N, sub, x, dir)
    ensures CanRotate(g, x, dir)
    ensures RotatedShape(g, Rotate(g, x, dir), x, dir)
  {
    RotateDistinct(g, N, sub, x, dir);
    assert x != g.nil && Promoted(g, x, dir) != g.nil;
  }

  /** One node of a rotated tree is linked. */
  lemma RotatedLinkedAt<H>(g: Graph<H>, g': Graph<H>, N: set<H>, sub: map<H, set<H>>, x: H, dir: Dir, n: H)
    requires Rotatable(g, N, sub, x, dir) && RotatedShape(g, g', x, dir) && n in N
    ensures LinkedAt(g', N, RotateSub(g, sub, x, dir), n)
  {
    RotateDistinct(g, N, sub, x, dir);
    if n == x {
      RotatedLinkedX(g, g', N, sub, x, dir);
    } else if n == Promoted(g, x, dir) {
      RotatedLinkedY(g, g', N, sub, x, dir);
    } else if n == g.slots[x].parent {
      RotatedLinkedParent(g, g', N, sub, x, dir);
    } else if n == Moved(g, x, dir) {
      RotatedLinkedMoved(g, g', N, sub, x, dir);
    } else {
      RotatedLinkedOther(g, g', N, sub, x, dir, n);
    }
  }

  lemma RotatedLinkedX<H>(g: Graph<H>, g': Graph<H>, N: set<H>, sub: map<H, set<H>>, x: H, dir: Dir)
    requires Rotatable(g, N, sub, x, dir) && RotatedShape(g, g', x, dir)
    ensures LinkedAt(g', N, RotateSub(g, sub, x, dir), x)
  {
    RotateDistinct(g, N, sub, x, dir);
    var y := Promoted(g, x, dir);
    var a := g.slots[x].Child(dir);
    var b := Moved(g, x, dir);
    assert LinkedAt(g, N, sub, x);
    assert LinkedAt(g, N, sub, y);
    assert a != y && (a != b || a == g.nil);
    if a != g.nil {
      assert LinkedAt(g, N, sub, a);
    }
  }

  /** The promoted node's new subtree is x's old one, split as the links now say. */
  lemma RotatedSubAtY<H>(g: Graph<H>, N: set<H>, sub: map<H, set<H>>, x: H, dir: Dir)
    requires Rotatable(g, N, sub, x, dir)
    ensures CanRotate(g, x, dir)
    ensures var y := Promoted(g, x, dir);
            var c := g.slots[y].Child(Flip(dir));
            var sub' := RotateSub(g, sub, x, dir);
            && c in sub && c != x && c != y
            && sub'[y] == {y} + sub'[x] + sub'[c]
            && y !in sub'[x] && y !in sub'[c] && sub'[x] !! sub'[c]
  {
    RotateDistinct(g, N, sub, x, dir);
    var y := Promoted(g, x, dir);
    var a := g.slots[x].Child(dir);
    var b := Moved(g, x, dir);
    var c := g.slots[y].Child(Flip(dir));
    var sub' := RotateSub(g, sub, x, dir);
    assert LinkedAt(g, N, sub, x);
    assert LinkedAt(g, N, sub, y);
    assert sub'[x] == {x} + sub[a] + sub[b];
    assert sub'[c] == sub[c];
  }

  lemma RotatedLinkedY<H>(g: Graph<H>, g': Graph<H>, N: set<H>, sub: map<H, set<H>>, x: H, dir: Dir)
    requires Rotatable(g, N, sub, x, dir) && RotatedShape(g, g', x, dir)
    ensures LinkedAt(g', N, RotateSub(g, sub, x, dir), Promoted(g, x, dir))
  {
    RotateDistinct(g, N, sub, x, dir);
    var y := Promoted(g, x, dir);
    var b := Moved(g, x, dir);
    var c := g.slots[y].Child(Flip(dir));
    var xp := g.slots[x].parent;
    assert LinkedAt(g, N, sub, x);
    assert LinkedAt(g, N, sub, y);
    var sub' := RotateSub(g, sub, x, dir);
    if c != g.nil {
      assert LinkedAt(g, N, sub, c);
    }
    assert c != x && (c != b || c == g.nil) && c != y;
    RotatedSubAtY(g, N, sub, x, dir);
    if xp != g.nil {
      assert LinkedAt(g, N, sub, xp);
    }
  }

  lemma RotatedLinkedParent<H>(g: Graph<H>, g': Graph<H>, N: set<H>, sub: map<H, set<H>>, x: H, dir: Dir)
    requires Rotatable(g, N, sub, x, dir) && RotatedShape(g, g', x, dir)
    requires g.slots[x].parent != g.nil
    ensures LinkedAt(g', N, RotateSub(g, sub, x, dir), g.slots[x].parent)
  {
    RotateDistinct(g, N, sub, x, dir);
    var xp := g.slots[x].parent;
    assert LinkedAt(g, N, sub, x);
    assert LinkedAt(g, N, sub, xp);
    if xp != g.root {
      assert LinkedAt(g, N, sub, g.slots[xp].parent);
    }
  }

  lemma RotatedLinkedMoved<H>(g: Graph<H>, g': Graph<H>, N: set<H>, sub: map<H, set<H>>, x: H, dir: Dir)
    requires Rotatable(g, N, sub, x, dir) && RotatedShape(g, g', x, dir)
    requires Moved(g, x, dir) != g.nil && Moved(g, x, dir) != g.slots[x].parent
    ensures LinkedAt(g', N, RotateSub(g, sub, x, dir), Moved(g, x, dir))
  {
    RotateDistinct(g, N, sub, x, dir);
    var y := Promoted(g, x, dir);
    var b := Moved(g, x, dir);
    assert LinkedAt(g, N, sub, x);
    assert LinkedAt(g, N, sub, y);
    assert LinkedAt(g, N, sub, b);
  }

  lemma RotatedLinkedOther<H>(g: Graph<H>, g': Graph<H>, N: set<H>, sub: map<H, set<H>>, x: H, dir: Dir, n: H)
    requires Rotatable(g, N, sub, x, dir) && RotatedShape(g, g', x, dir) && n in N
    requires n != x && n != Promoted(g, x, dir) && n != Moved(g, x, dir) && n != g.slots[x].parent
    ensures LinkedAt(g', N, RotateSub(g, sub, x, dir), n)
  {
    RotateDistinct(g, N, sub, x, dir);
    var y := Promoted(g, x, dir);
    assert LinkedAt(g, N, sub, x);
    assert LinkedAt(g, N, sub, y);
    assert LinkedAt(g, N, sub, n);
    var r := g.slots[n];
    assert r.left != x && r.right != x;
    assert r.left != y && r.right != y;
    if n != g.root {
      assert LinkedAt(g, N, sub, r.parent);
    }
  }

  /** Rotation keeps the tree linked, with the subtree sets of RotateSub. */
  lemma RotateLinked<H>(g: Graph<H>, N: set<H>, sub: map<H, set<H>>, x: H, dir: Dir)
    requires Rotatable(g, N, sub, x, dir)
    ensures CanRotate(g, x, dir)
    ensures Linked(Rotate(g, x, dir), N, RotateSub(g, sub, x, dir))
  {
    RotateShape(g, N, sub, x, dir);
    RotateDistinct(g, N, sub, x, dir);
    var g' := Rotate(g, x, dir);
    var sub' := RotateSub(g, sub, x, dir);
    forall n | n in N ensures LinkedAt(g', N, sub', n) {
      RotatedLinkedAt(g, g', N, sub, x, dir, n);
    }
    assert LinkedAt(g, N, sub, x);
    if x != g.root {
      RootOnlyInOwnSubtree(g, N, sub, x);
    }
  }

  /** A rotation changes links only: every key and colour stays where it was. */
  lemma RotatedKeepsKeys<H>(g: Graph<H>, g': Graph<H>, N: set<H>, sub: map<H, set<H>>, x: H, dir: Dir)
    requires Rotatable(g, N, sub, x, dir) && RotatedShape(g, g', x, dir)
    ensures forall m :: m in g.slots ==> g'.slots[m].key == g.slots[m].key && g'.slots[m].red == g.slots[m].red
  {
    RotateDistinct(g, N, sub, x, dir);
  }

  /** Away from x, the promoted node and x's parent, a rotation leaves every node's children as they were. */
  lemma RotatedChildrenElsewhere<H>(g: Graph<H>, g': Graph<H>, x: H, dir: Dir, n: H)
    requires RotatedShape(g, g', x, dir) && n in g.slots
    requires n != x && n != Promoted(g, x, dir) && n != g.slots[x].parent
    ensures g'.slots[n].left == g.slots[n].left && g'.slots[n].right == g.slots[n].right
    ensures g'.slots[n].red == g.slots[n].red && g'.slots[n].key == g.slots[n].key
  {
  }

  lemma RotatedOrderedAt<H>(g: Graph<H>, g': Graph<H>, N: set<H>, sub: map<H, set<H>>, x: H, dir: Dir, n: H)
    requires Rotatable(g, N, sub, x, dir) && RotatedShape(g, g', x, dir) && Ordered(g, N, sub) && n in N
    ensures OrderedAt(g', RotateSub(g, sub, x, dir), n)
  {
    RotateDistinct(g, N, sub, x, dir);
    if n == x {
      RotatedOrderedX(g, g', N, sub, x, dir);
    } else if n == Promoted(g, x, dir) {
      RotatedOrderedY(g, g', N, sub, x, dir);
    } else {
      RotatedOrderedOther(g, g', N, sub, x, dir, n);
    }
  }

  lemma RotatedOrderedX<H>(g: Graph<H>, g': Graph<H>, N: set<H>, sub: map<H, set<H>>, x: H, dir: Dir)
    requires Rotatable(g, N, sub, x, dir) && RotatedShape(g, g', x, dir) && Ordered(g, N, sub)
    ensures OrderedAt(g', RotateSub(g, sub, x, dir), x)
  {
    RotateDistinct(g, N, sub, x, dir);
    RotatedKeepsKeys(g, g', N, sub, x, dir);
    var y := Promoted(g, x, dir);
    assert LinkedAt(g, N, sub, x);
    assert LinkedAt(g, N, sub, y);
    assert OrderedAt(g, sub, x);
  }

  lemma RotatedOrderedY<H>(g: Graph<H>, g': Graph<H>, N: set<H>, sub: map<H, set<H>>, x: H, dir: Dir)
    requires Rotatable(g, N, sub, x, dir) && RotatedShape(g, g', x, dir) && Ordered(g, N, sub)
    ensures OrderedAt(g', RotateSub(g, sub, x, dir), Promoted(g, x, dir))
  {
    RotateDistinct(g, N, sub, x, dir);
    RotatedKeepsKeys(g, g', N, sub, x, dir);
    var y := Promoted(g, x, dir);
    var a := g.slots[x].Child(dir);
    var b := Moved(g, x, dir);
    var sub' := RotateSub(g, sub, x, dir);
    assert LinkedAt(g, N, sub, x);
    assert LinkedAt(g, N, sub, y);
    assert OrderedAt(g, sub, x);
    assert OrderedAt(g, sub, y);
    assert sub'[x] == {x} + sub[a] + sub[b];
    assert y in sub[g.slots[x].Child(Flip(dir))];
    if dir == 0 {
      assert g.slots[x].key <= g.slots[y].key;
    } else {
      assert g.slots[y].key <= g.slots[x].key;
    }
  }

  lemma RotatedOrderedOther<H>(g: Graph<H>, g': Graph<H>, N: set<H>, sub: map<H, set<H>>, x: H, dir: Dir, n: H)
    requires Rotatable(g, N, sub, x, dir) && RotatedShape(g, g', x, dir) && Ordered(g, N, sub) && n in N
    requires n != x && n != Promoted(g, x, dir)
    ensures OrderedAt(g', RotateSub(g, sub, x, dir), n)
  {
    RotateDistinct(g, N, sub, x, dir);
    RotatedKeepsKeys(g, g', N, sub, x, dir);
    var y := Promoted(g, x, dir);
    assert LinkedAt(g, N, sub, x);
    assert LinkedAt(g, N, sub, y);
    assert LinkedAt(g, N, sub, n);
    assert OrderedAt(g, sub, n);
    var r := g.slots[n];
    assert r.left != y && r.right != y;
    if r.left == x || r.right == x {
      assert n == g.slots[x].parent;
    }
  }

  /** Rotation keeps the descent order (keys in every left subtree at most, in every right subtree at least, the node's). */
  lemma RotateOrdered<H>(g: Graph<H>, N: set<H>, sub: map<H, set<H>>, x: H, dir: Dir)
    requires Rotatable(g, N, sub, x, dir) && Ordered(g, N, sub)
    ensures CanRotate(g, x, dir)
    ensures Ordered(Rotate(g, x, dir), N, RotateSub(g, sub, x, dir))
  {
    RotateShape(g, N, sub, x, dir);
    var g' := Rotate(g, x, dir);
    forall n | n in N ensures OrderedAt(g', RotateSub(g, sub, x, dir), n) {
      RotatedOrderedAt(g, g', N, sub, x, dir, n);
    }
  }

  /** Reversing a rotation at the promoted node: the records it leaves are the original ones. */
  lemma RotatedBack<H>(g: Graph<H>, g': Graph<H>, g'': Graph<H>, N: set<H>, sub: map<H, set<H>>, x: H, dir: Dir)
    requires Rotatable(g, N, sub, x, dir) && RotatedShape(g, g', x, dir)
    requires RotatedShape(g', g'', Promoted(g, x, dir), Flip(dir))
    ensures g''.slots == g.slots && g''.root == g.root
  {
    RotateDistinct(g, N, sub, x, dir);
    var y := Promoted(g, x, dir);
    var b := Moved(g, x, dir);
    var xp := g.slots[x].parent;
    assert LinkedAt(g, N, sub, x);
    assert LinkedAt(g, N, sub, y);
    assert Flip(Flip(dir)) == dir;
    assert Promoted(g', y, Flip(dir)) == x;
    assert Moved(g', y, Flip(dir)) == b;
    assert g'.slots[y].parent == xp;
    forall m | m in g.slots ensures g''.slots[m] == g.slots[m] {
      if m == x || m == y {
      } else if m == b && b != g.nil {
        assert LinkedAt(g, N, sub, b);
      } else if m == xp && xp != g.nil {
        assert LinkedAt(g, N, sub, xp);
      }
    }
  }

  /** `rotate(x, dir)` followed by `rotate(y, dir ^ 1)` at the promoted node y restores every record and the root. */
  lemma RotateInverse<H>(g: Graph<H>, N: set<H>, sub: map<H, set<H>>, x: H, dir: Dir)
    requires Rotatable(g, N, sub, x, dir)
    ensures CanRotate(g, x, dir)
    ensures CanRotate(Rotate(g, x, dir), Promoted(g, x, dir), Flip(dir))
    ensures Rotate(Rotate(g, x, dir), Promoted(g, x, dir), Flip(dir)) == g
  {
    RotateShape(g, N, sub, x, dir);
    RotateLinked(g, N, sub, x, dir);
    RotateDistinct(g, N, sub, x, dir);
    var y := Promoted(g, x, dir);
    var g' := Rotate(g, x, dir);
    var sub' := RotateSub(g, sub, x, dir);
    assert Flip(Flip(dir)) == dir;
    assert Rotatable(g', N, sub', y, Flip(dir));
    RotateShape(g', N, sub', y, Flip(dir));
    RotatedBack(g, g', Rotate(g', y, Flip(dir)), N, sub, x, dir);
  }
}
