/**
 * The direct-ownership variant, `PointerRedBlack` (src/pointer.rs): every
 * node, the sentinel included, is its own heap object and links are
 * addresses. The ghost set Repr holds every node allocated so far; the
 * records of those nodes form the same storage graph as the arena variant's
 * slab, so every method is proved against the definitions of RbGraph and the
 * invariants of RbInvariants, exactly as in RbSlab. Deleted nodes are never
 * freed: they stay in Repr, outside the tree.
 */
module RbPointer {
  import opened RbGraph
  import opened RbInvariants
  import opened RbRotate
  import opened RbInsert
  import opened RbDelete
  import opened RbDeleteFixup
  import opened RbQuery
  import opened RbStorage
  import opened RbSteps
  import opened RbValidator

  /** `Node<T>`: the links are addresses; the sentinel's own parent and children start out null. */
  class PNode {
    var parent: PNode?
    var left: PNode?
    var right: PNode?
    var key: int
    var red: bool

    /** `Node::new(key, nil_sentinel)`: parent and both children are the given sentinel; the colour is black. */
    constructor (k: int, nil: PNode?)
      ensures parent == nil && left == nil && right == nil && key == k && !red
    {
      parent, left, right, key, red := nil, nil, nil, k, false;
    }

    /** `children[d]`. */
    function Child(d: Dir): (c: PNode?)
      reads this
    {
      if d == 0 then left else right
    }
  }

  class PointerRedBlack {
    var root: PNode
    var nil: PNode

    /** Every node allocated so far, the sentinel included. */
    ghost var Repr: set<PNode>
    ghost var N: set<PNode?>
    ghost var sub: map<PNode?, set<PNode?>>
    ghost var bh: map<PNode?, nat>

    /** The storage graph the nodes describe. */
    ghost function G(): (g: Graph<PNode?>)
      reads this, Repr
    {
      Graph(map n: PNode | n in Repr :: Rec(n.parent, n.left, n.right, n.key, n.red), root, nil)
    }

    /** A red-black tree whose nodes and sentinel are among the allocated nodes. */
    ghost predicate Valid()
      reads this, Repr
    {
      RedBlack(G(), N, sub, bh)
    }

    /** `new`: a fresh sentinel (null parent and children, black) that is also the root. */
    constructor ()
      ensures Valid() && N == {} && root == nil && Repr == {nil}
      ensures Ordered(G(), N, sub)
    {
      var s := new PNode(0, null);
      nil, root := s, s;
      Repr := {s};
      N, sub, bh := {}, map[s := {}], map[s := 0];
    }

    /** `new_node_ptr(key, nil_sentinel)`: a fresh node, linked only to the sentinel; nothing else changes. */
    method NewNode(key: int) returns (z: PNode)
      modifies this
      ensures fresh(z) && Repr == old(Repr) + {z}
      ensures AddedSlot(old(G()), G(), z) && G().slots[z] == NewRec<PNode?>(key, nil)
      ensures root == old(root) && nil == old(nil)
      ensures N == old(N) && sub == old(sub) && bh == old(bh)
    {
      z := new PNode(key, nil);
      Repr := Repr + {z};
    }

    /** Re-annotate the tree: no node changes. */
    method SetShape(ghost N': set<PNode?>, ghost sub': map<PNode?, set<PNode?>>, ghost bh': map<PNode?, nat>)
      modifies this
      ensures N == N' && sub == sub' && bh == bh'
      ensures root == old(root) && nil == old(nil) && Repr == old(Repr) && G() == old(G())
    {
      N, sub, bh := N', sub', bh';
    }

    /** `self.root = r`. */
    method WriteRoot(r: PNode)
      modifies this
      ensures G() == old(G()).(root := r)
      ensures Repr == old(Repr) && nil == old(nil)
      ensures N == old(N) && sub == old(sub) && bh == old(bh)
    {
      root := r;
    }

    /** `(*n).key = k`. */
    method WriteKey(n: PNode, k: int)
      requires n in Repr
      modifies n
      ensures G() == SetKey(old(G()), n, k)
      ensures Repr == old(Repr) && root == old(root) && nil == old(nil)
      ensures N == old(N) && sub == old(sub) && bh == old(bh)
    {
      n.key := k;
    }

    /** `(*n).parent = p`. */
    method WriteParent(n: PNode, p: PNode?)
      requires n in Repr
      modifies n
      ensures G() == SetParent(old(G()), n, p)
      ensures Repr == old(Repr) && root == old(root) && nil == old(nil)
      ensures N == old(N) && sub == old(sub) && bh == old(bh)
    {
      n.parent := p;
    }

    /** `(*n).children[d] = c`. */
    method WriteChild(n: PNode, d: Dir, c: PNode?)
      requires n in Repr
      modifies n
      ensures G() == SetChild(old(G()), n, d, c)
      ensures Repr == old(Repr) && root == old(root) && nil == old(nil)
      ensures N == old(N) && sub == old(sub) && bh == old(bh)
    {
      if d == 0 {
        n.left := c;
      } else {
        n.right := c;
      }
    }

    /** `(*n).red = b`. */
    method WriteRed(n: PNode, b: bool)
      requires n in Repr
      modifies n
      ensures G() == SetRed(old(G()), n, b)
      ensures Repr == old(Repr) && root == old(root) && nil == old(nil)
      ensures N == old(N) && sub == old(sub) && bh == old(bh)
    {
      n.red := b;
    }

    /** The first half of `rotate(x, dir)`: y's `dir` child moves under x. */
    method RotateLower(x: PNode, dir: Dir) returns (y: PNode)
      requires CanRotate(G(), x, dir)
      modifies Repr
      ensures y == old(G()).slots[x].Child(Flip(dir))
      ensures var g1 := SetChild(old(G()), x, Flip(dir), old(G()).slots[y].Child(dir));
              G() == if g1.slots[y].Child(dir) != nil then SetParent(g1, g1.slots[y].Child(dir), x) else g1
      ensures Repr == old(Repr) && root == old(root) && nil == old(nil)
      ensures N == old(N) && sub == old(sub) && bh == old(bh)
    {
      y := x.Child(Flip(dir));
      WriteChild(x, Flip(dir), y.Child(dir));
      var yChild := y.Child(dir);
      if yChild != nil {
        WriteParent(yChild, x);
      }
    }

    /** The second half of `rotate(x, dir)`: y takes x's place under x's parent (or as the root). */
    method RotateUpper(x: PNode, y: PNode)
      requires x in Repr && y in Repr && G().slots[x].parent in G().slots
      modifies this, Repr
      ensures var g3 := SetParent(old(G()), y, old(G()).slots[x].parent);
              var xp := g3.slots[x].parent;
              G() == if xp == nil then g3.(root := y)
                     else SetChild(g3, xp, if g3.slots[xp].left == x then 0 else 1, y)
      ensures Repr == old(Repr) && nil == old(nil)
      ensures N == old(N) && sub == old(sub) && bh == old(bh)
    {
      WriteParent(y, x.parent);
      var xParent := x.parent;
      if xParent == nil {
        root := y;
      } else {
        var sibDir := if xParent.left == x then 0 else 1;
        WriteChild(xParent, sibDir, y);
      }
    }

    /** `rotate(x, dir)`: the source's writes, in its order. */
    method Rotate(x: PNode, dir: Dir)
      requires CanRotate(G(), x, dir)
      modifies this, Repr
      ensures G() == RbGraph.Rotate(old(G()), x, dir)
      ensures Repr == old(Repr) && nil == old(nil)
      ensures N == old(N) && sub == old(sub) && bh == old(bh)
    {
      ghost var g := G();
      var y := RotateLower(x, dir);
      ghost var g2 := G();
      RotateUpper(x, y);
      ghost var g4 := G();
      WriteChild(y, dir, x);
      ghost var g5 := G();
      WriteParent(x, y);
      RotateSteps(g, x, dir, SetChild(g, x, Flip(dir), g.slots[y].Child(dir)), g2, SetParent(g2, y, g2.slots[x].parent), g4, g5);
    }

    /** `tree_minimum(x)`: follow left links down from x; under the descent order that is x's least key. */
    method TreeMinimum(x0: PNode) returns (x: PNode)
      requires Linked(G(), N, sub) && x0 in N
      ensures x == Leftmost(G(), N, sub, x0)
      ensures x in sub[x0] && x in N && x.left == nil
      ensures Ordered(G(), N, sub) ==> forall n :: n in sub[x0] ==> n in N && G().slots[x].key <= G().slots[n].key
    {
      x := x0;
      assert LinkedAt(G(), N, sub, x);
      var l := x.left;
      while l != nil
        invariant x in N && l == x.left
        invariant Leftmost(G(), N, sub, x) == Leftmost(G(), N, sub, x0)
        decreases sub[x]
      {
        assert LinkedAt(G(), N, sub, x);
        x := l;
        assert LinkedAt(G(), N, sub, x);
        l := x.left;
      }
      LeftmostMinimum(G(), N, sub, x0);
    }

    /**
     * `tree_successor(x)`. With a right child it returns `tree_minimum(x)`,
     * the leftmost node of x's own subtree, as the source is written (the
     * textbook successor starts from x's right child). Otherwise it climbs
     * while x is a right child and returns the first ancestor that has x's
     * start below its left child: under the descent order every key of that
     * left subtree is at most x's key, which is at most the ancestor's; when
     * there is no such ancestor, x's key is the greatest of the tree.
     */
    method TreeSuccessor(x0: PNode) returns (y: PNode)
      requires Linked(G(), N, sub) && x0 in N
      ensures x0.right != nil ==> y == Leftmost(G(), N, sub, x0)
      ensures x0.right == nil ==>
                if y == nil then
                  Ordered(G(), N, sub) ==> forall n :: n in N ==> G().slots[n].key <= x0.key
                else
                  && y in N && y.left in sub && x0 in sub[y.left]
                  && (Ordered(G(), N, sub) ==>
                        && x0.key <= y.key
                        && forall n :: n in sub[y.left] ==> n in N && G().slots[n].key <= x0.key)
    {
      if x0.right != nil {
        y := TreeMinimum(x0);
        return;
      }
      var x := x0;
      ClimbStart(G(), N, sub, x0);
      ParentOf(G(), N, sub, x);
      y := x.parent;
      while y != nil && x == y.right
        invariant Climbing(G(), N, sub, x0, x) && y == x.parent && y in Repr
        decreases |N - sub[x]|
      {
        ParentOf(G(), N, sub, x);
        ClimbStep(G(), N, sub, x0, x);
        x := y;
        ParentOf(G(), N, sub, x);
        y := x.parent;
      }
      ParentOf(G(), N, sub, x);
      ClimbEnd(G(), N, sub, x0, x);
    }

    /** `search_(key)`: the node the search descent reaches, which holds key; none only if the tree lacks it (under the descent order). */
    method SearchNode(key: int) returns (r: Option<PNode>)
      requires Linked(G(), N, sub)
      ensures r.Some? <==> Descend(G(), N, sub, root, key).Some?
      ensures r.Some? ==> r.value == Descend(G(), N, sub, root, key).value
      ensures r.Some? ==> r.value in N && r.value.key == key
      ensures r.Some? ==> Occurrences(G(), N, key) > 0
      ensures r.None? && Ordered(G(), N, sub) ==> Occurrences(G(), N, key) == 0
    {
      DescendSound(G(), N, sub, root, key);
      SearchFinds(G(), N, sub, key);
      var curr := root;
      while curr != nil
        invariant curr in N || curr == nil
        invariant Descend(G(), N, sub, curr, key) == Descend(G(), N, sub, root, key)
        decreases sub[curr]
      {
        assert LinkedAt(G(), N, sub, curr);
        if curr.key == key {
          return Some(curr);
        }
        var direction := if curr.key < key then 1 else 0;
        curr := curr.Child(direction);
      }
      return None;
    }

    /** `search(key)`: the stored key equal to key, if the search descent finds one. */
    method Search(key: int) returns (r: Option<int>)
      requires Linked(G(), N, sub)
      ensures r.Some? ==> r.value == key && Occurrences(G(), N, key) > 0
      ensures r.Some? <==> Descend(G(), N, sub, root, key).Some?
      ensures Ordered(G(), N, sub) ==> (r.Some? <==> Occurrences(G(), N, key) > 0)
    {
      var found := SearchNode(key);
      if found.Some? {
        return Some(found.value.key);
      }
      return None;
    }

    /**
     * `insert_fixup(z)`: the repair loop after a red leaf z is attached. Each
     * pass either recolours (red uncle) and moves the red-red edge two levels
     * up, or rotates once or twice (black uncle) and ends; the root is then
     * blackened.
     */
    method InsertFixup(z0: PNode)
      requires InsertInv(G(), N, sub, bh, z0)
      modifies this, Repr
      ensures RedBlack(G(), N, sub, bh)
      ensures N == old(N) && SameKeys(old(G()), G()) && nil == old(nil) && Repr == old(Repr)
      ensures old(Ordered(G(), N, sub)) ==> Ordered(G(), N, sub)
    {
      ghost var g0 := G();
      ghost var ordered := Ordered(G(), N, sub);
      var z := z0;
      ParentOf(G(), N, sub, z);
      var p := z.parent;
      while p.red
        invariant InsertInv(G(), N, sub, bh, z) && p == G().slots[z].parent && p in Repr
        invariant N == old(N) && SameKeys(g0, G()) && nil == g0.nil && Repr == old(Repr)
        invariant ordered ==> Ordered(G(), N, sub)
        decreases if Red(G(), p) then 1 else 0, |N - sub[z]|
      {
        ghost var gb := G();
        z, p := InsertPass(z, p);
        SameKeysTrans(g0, gb, G());
      }
      ghost var ge := G();
      WriteRed(root, false);
      InsertDoneStep(ge, G(), N, sub, bh, z);
      SameKeysTrans(g0, ge, G());
    }

    /** One pass of the repair loop, for a red parent p of z: the red-uncle case or the rotations. */
    method InsertPass(z: PNode, p: PNode) returns (z': PNode, p': PNode)
      requires InsertInv(G(), N, sub, bh, z) && p == G().slots[z].parent && Red(G(), p) && p in Repr
      modifies this, Repr
      ensures InsertInv(G(), N, sub, bh, z') && p' == G().slots[z'].parent && p' in Repr
      ensures !Red(G(), p') || (sub == old(sub) && |N - sub[z']| < |N - sub[z]|)
      ensures N == old(N) && SameKeys(old(G()), G()) && nil == old(nil) && Repr == old(Repr)
      ensures old(Ordered(G(), N, sub)) ==> Ordered(G(), N, sub)
    {
      InsertFacts(G(), N, sub, bh, z, p);
      assert G().slots[p] == Rec(p.parent, p.left, p.right, p.key, p.red);
      var pp: PNode := p.parent;
      assert G().slots[pp] == Rec(pp.parent, pp.left, pp.right, pp.key, pp.red);
      assert LinkedAt(G(), N, sub, pp);
      var dir := if pp.left == p then 1 else 0;
      var y: PNode := pp.Child(dir);
      if y.red {
        RecolourUp(z, p, pp, y);
        z' := pp;
        ParentOf(G(), N, sub, z');
        p' := z'.parent;
      } else {
        z', p' := z, p;
        if z == p.Child(dir) {
          RotateInner(z, p, pp, dir);
          z' := p;
          p' := z;
        }
        RotateOuter(z', p', pp, dir);
      }
    }

    /** Red uncle y (source lines 99-103): p and y turn black, pp red; the red-red edge may now enter pp. */
    method RecolourUp(z: PNode, p: PNode, pp: PNode, y: PNode)
      requires InsertInv(G(), N, sub, bh, z) && p == G().slots[z].parent && Red(G(), p)
      requires p in Repr && pp == G().slots[p].parent && pp in Repr
      requires y == G().slots[pp].Child(if G().slots[pp].left == p then 1 else 0) && Red(G(), y)
      modifies this, Repr
      ensures N == old(N) && sub == old(sub) && SameKeys(old(G()), G()) && nil == old(nil) && Repr == old(Repr)
      ensures InsertInv(G(), N, sub, bh, pp) && |N - sub[pp]| < |N - sub[z]|
      ensures old(Ordered(G(), N, sub)) ==> Ordered(G(), N, sub)
    {
      ghost var gb := G();
      ghost var bh0 := bh;
      InsertFacts(gb, N, sub, bh, z, p);
      ghost var N0, sub0, bh1 := N, sub, bh0[pp := bh0[pp] + 1];
      SetShape(N0, sub0, bh1);
      Paint3(p, false, y, false, pp, true);
      RecolourUpStep(gb, G(), N0, sub0, bh0, bh1, z, p, pp, y);
    }

    /** Two colour writes, a's then b's. */
    method Paint2(a: PNode, ca: bool, b: PNode, cb: bool)
      requires a in Repr && b in Repr
      modifies Repr
      ensures G() == SetRed(SetRed(old(G()), a, ca), b, cb)
      ensures Repr == old(Repr) && root == old(root) && nil == old(nil)
      ensures N == old(N) && sub == old(sub) && bh == old(bh)
    {
      WriteRed(a, ca);
      WriteRed(b, cb);
    }

    /** One colour write, together with the new black-height annotation. */
    method ShapeRed(a: PNode, ca: bool, ghost bh': map<PNode?, nat>)
      requires a in Repr
      modifies this, Repr
      ensures G() == SetRed(old(G()), a, ca)
      ensures Repr == old(Repr) && root == old(root) && nil == old(nil)
      ensures N == old(N) && sub == old(sub) && bh == bh'
    {
      SetShape(N, sub, bh');
      WriteRed(a, ca);
    }

    /** Three colour writes, a's, b's, then c's. */
    method Paint3(a: PNode, ca: bool, b: PNode, cb: bool, c: PNode, cc: bool)
      requires a in Repr && b in Repr && c in Repr
      modifies Repr
      ensures G() == SetRed(SetRed(SetRed(old(G()), a, ca), b, cb), c, cc)
      ensures Repr == old(Repr) && root == old(root) && nil == old(nil)
      ensures N == old(N) && sub == old(sub) && bh == old(bh)
    {
      Paint2(a, ca, b, cb);
      WriteRed(c, cc);
    }

    /** Black uncle, z an inner child (source lines 106-109): rotate(p, dir ^ 1) turns p into an outer child of z. */
    method RotateInner(z: PNode, p: PNode, pp: PNode, dir: Dir)
      requires InsertInv(G(), N, sub, bh, z) && p == G().slots[z].parent && Red(G(), p)
      requires p in Repr && pp == G().slots[p].parent && pp in Repr
      requires dir == (if G().slots[pp].left == p then 1 else 0) && !Red(G(), G().slots[pp].Child(dir))
      requires z == G().slots[p].Child(dir)
      modifies this, Repr
      ensures InsertInv(G(), N, sub, bh, p) && z in Repr && pp in Repr
      ensures G().slots[p].parent == z && G().slots[z].parent == pp && Red(G(), z)
      ensures dir == (if G().slots[pp].left == z then 1 else 0) && !Red(G(), G().slots[pp].Child(dir))
      ensures p == G().slots[z].Child(Flip(dir))
      ensures N == old(N) && SameKeys(old(G()), G()) && nil == old(nil) && Repr == old(Repr)
      ensures old(Ordered(G(), N, sub)) ==> Ordered(G(), N, sub)
    {
      ghost var gb := G();
      ghost var N0, sub0, bh0 := N, sub, bh;
      InnerReady(gb, N0, sub0, bh0, z, p, pp, dir);
      ghost var sub1 := RotateSub(gb, sub0, p, Flip(dir));
      SetShape(N0, sub1, bh0);
      Rotate(p, Flip(dir));
      ghost var g1 := G();
      InnerStep(gb, g1, N0, sub0, sub1, bh0, z, p, pp, dir);
    }

    /** Black uncle, z an outer child (source lines 110-112): p turns black, pp red, and rotate(pp, dir) lifts p. */
    method RotateOuter(z: PNode, p: PNode, pp: PNode, dir: Dir)
      requires InsertInv(G(), N, sub, bh, z) && p == G().slots[z].parent && Red(G(), p)
      requires p in Repr && pp == G().slots[p].parent && pp in Repr
      requires dir == (if G().slots[pp].left == p then 1 else 0) && !Red(G(), G().slots[pp].Child(dir))
      requires z == G().slots[p].Child(Flip(dir))
      modifies this, Repr
      ensures InsertInv(G(), N, sub, bh, z) && p == G().slots[z].parent && !Red(G(), p)
      ensures N == old(N) && SameKeys(old(G()), G()) && nil == old(nil) && Repr == old(Repr)
      ensures old(Ordered(G(), N, sub)) ==> Ordered(G(), N, sub)
    {
      ghost var gb := G();
      ghost var sub0 := sub;
      OuterReady(gb, N, sub, bh, z, p, pp, dir);
      SetShape(N, RotateSub(OuterColours(gb, p, pp), sub0, pp, dir), bh);
      Paint2(p, false, pp, true);
      Rotate(pp, dir);
      OuterStep(gb, G(), N, sub0, sub, bh, z, p, pp, dir);
    }

    /**
     * The descent of `insert(key)`: from the root, go left when key is below
     * the node's key and right otherwise (so equal keys go right), until the
     * sentinel. The result is where insertion's descent ends: the last node
     * passed, with the free side the descent left it by, where key fits.
     * With an empty tree the result is the sentinel.
     */
    method FindParent(key: int) returns (y: PNode, ghost d: Dir)
      requires Linked(G(), N, sub)
      ensures y == nil <==> root == nil
      ensures y != nil ==> (y, d) == InsertDescent(G(), N, sub, root, key, true)
      ensures y != nil ==> && y in N && y.Child(d) == nil && d == (if key < y.key then 0 else 1)
                           && FitsBelow(G(), N, sub, y, d, key)
    {
      y := nil;
      d := 0;
      var x := root;
      while x != nil
        invariant x == nil || x in N
        invariant y == nil ==> x == root
        invariant y != nil ==> y in N && y.Child(d) == x
        invariant x != nil ==> InsertDescent(G(), N, sub, x, key, true) == InsertDescent(G(), N, sub, root, key, true)
        invariant x == nil && y != nil ==> (y, d) == InsertDescent(G(), N, sub, root, key, true)
        decreases sub[x]
      {
        assert LinkedAt(G(), N, sub, x);
        var dir: Dir := if key < x.key then 0 else 1;
        y := x;
        d := dir;
        x := x.Child(dir);
      }
      if y != nil {
        InsertDescentFitsRoot(G(), N, sub, key, true);
      }
    }

    /** The attachment of `insert`: z's parent becomes y, z becomes y's child on the side its key calls for (or the root), and z turns red. */
    method Link(z: PNode, y: PNode, ghost d: Dir)
      requires z in Repr && y in Repr && (y != nil ==> d == if z.key < y.key then 0 else 1)
      modifies this, Repr
      ensures G() == SetRed(Attach(old(G()), z, y, d), z, true)
      ensures Repr == old(Repr) && N == old(N) && sub == old(sub) && bh == old(bh)
    {
      WriteParent(z, y);
      if y == nil {
        WriteRoot(z);
      } else {
        var dir := if z.key < y.key then 0 else 1;
        WriteChild(y, dir, z);
      }
      WriteRed(z, true);
    }

    /**
     * The first half of `insert(key)`: a fresh node holding key, found a
     * parent by the descent and attached red. The tree has one more
     * occurrence of key and is red-black except that z may be a red child of
     * a red parent.
     */
    method AttachNew(key: int) returns (z: PNode)
      requires Valid()
      modifies this, Repr
      ensures fresh(z) && Repr == old(Repr) + {z}
      ensures InsertInv(G(), N, sub, bh, z) && N == old(N) + {z} && nil == old(nil)
      ensures forall k :: Occurrences(G(), N, k) == old(Occurrences(G(), N, k)) + (if k == key then 1 else 0)
      ensures Keys(G(), N) == old(Keys(G(), N)) + {key}
      ensures old(Ordered(G(), N, sub)) ==> Ordered(G(), N, sub)
    {
      ghost var g0 := G();
      ghost var N0, sub0, bh0 := N, sub, bh;
      z := NewNode(key);
      ghost var g1 := G();
      AddSlotKeeps(g0, g1, N, sub, bh, z);
      var y, d := FindParent(key);
      LinkNew(z, y, d, g0, key);
    }

    /** The fresh node z, holding key, goes where the descent ended, with the annotations of the grown tree. */
    method LinkNew(z: PNode, y: PNode, ghost d: Dir, ghost g0: Graph<PNode?>, ghost key: int)
      requires RedBlack(g0, N, sub, bh) && AddedSlot(g0, G(), z) && G().slots[z] == NewRec<PNode?>(key, nil)
      requires z in Repr && y in Repr && z.key == key
      requires y == nil ==> root == nil
      requires y != nil ==> && y in N && y.Child(d) == nil && d == (if key < y.key then 0 else 1)
                            && FitsBelow(G(), N, sub, y, d, key)
      modifies this, Repr
      ensures Repr == old(Repr) && nil == old(nil) && N == old(N) + {z}
      ensures InsertInv(G(), N, sub, bh, z)
      ensures Ordered(g0, old(N), old(sub)) ==> Ordered(G(), N, sub)
      ensures forall j :: Occurrences(G(), N, j) == Occurrences(g0, old(N), j) + (if j == key then 1 else 0)
      ensures Keys(G(), N) == Keys(g0, old(N)) + {key}
    {
      ghost var g1 := G();
      ghost var N0, sub0, bh0 := N, sub, bh;
      assert y != nil ==> g1.slots[y].Child(d) == nil;
      ghost var N1, sub1, bh1 := N0 + {z}, AttachSub(sub0, y, z), bh0[z := 1];
      SetShape(N1, sub1, bh1);
      Link(z, y, d);
      AttachStep(g0, g1, G(), N0, sub0, bh0, N1, sub1, bh1, z, y, d, key);
    }

    /**
     * `insert(key)`: attach a fresh red node holding key where the descent
     * ends, then repair. The tree gains exactly one occurrence of key, stays
     * red-black, and keeps the descent order if it had it.
     */
    method Insert(key: int)
      requires Valid()
      modifies this, Repr
      ensures Valid() && nil == old(nil) && Repr > old(Repr)
      ensures forall k :: Occurrences(G(), N, k) == old(Occurrences(G(), N, k)) + (if k == key then 1 else 0)
      ensures Keys(G(), N) == old(Keys(G(), N)) + {key}
      ensures old(Ordered(G(), N, sub)) ==> Ordered(G(), N, sub)
    {
      var z := AttachNew(key);
      ghost var ga := G();
      InsertFixup(z);
      SameKeysOccurrences(ga, G(), N);
    }

    /** Red sibling w (source lines 128-132): w turns black, p red, and rotate(p, dir ^ 1) gives x a black sibling. */
    method RedSibling(x: PNode, p: PNode, dir: Dir, w: PNode)
      requires DeleteInv(G(), N, sub, bh, x, p, Flip(dir)) && x != root && !Red(G(), x)
      requires p in Repr && w == G().slots[p].Child(dir) && Red(G(), w)
      modifies this, Repr
      ensures DeleteInv(G(), N, sub, bh, x, p, Flip(dir)) && x != root && p in Repr && !Red(G(), x)
      ensures !Red(G(), G().slots[p].Child(dir))
      ensures x in old(sub) && x in sub && sub[x] == old(sub[x])
      ensures N == old(N) && SameKeys(old(G()), G()) && nil == old(nil) && Repr == old(Repr)
      ensures old(Ordered(G(), N, sub)) ==> Ordered(G(), N, sub)
    {
      assert Flip(Flip(dir)) == dir;
      ghost var gb := G();
      ghost var N0, sub0, bh0 := N, sub, bh;
      RedSiblingReady(gb, N0, sub0, bh0, x, p, Flip(dir), w);
      ghost var sub1 := RotateSub(RedSiblingColours(gb, p, w), sub0, p, Flip(dir));
      SetShape(N0, sub1, bh0);
      Paint2(w, false, p, true);
      Rotate(p, Flip(dir));
      RedSiblingStep(gb, G(), N0, sub0, sub1, bh0, x, p, Flip(dir), w);
    }

    /** Black sibling w with black children (source lines 136-138): w turns red and the missing black moves up to p. */
    method BlackNephews(x: PNode, p: PNode, dir: Dir, w: PNode)
      requires DeleteInv(G(), N, sub, bh, x, p, Flip(dir)) && x != root && !Red(G(), x)
      requires p in Repr && w == G().slots[p].Child(dir) && w in Repr && !Red(G(), w)
      requires !Red(G(), G().slots[w].left) && !Red(G(), G().slots[w].right)
      modifies this, Repr
      ensures p in N && p in Repr && G().slots[p].parent in G().slots
      ensures DeleteInv(G(), N, sub, bh, p, G().slots[p].parent, SideOf(G(), p))
      ensures x in sub && p in sub && |N - sub[p]| < |N - sub[x]|
      ensures N == old(N) && sub == old(sub) && SameKeys(old(G()), G()) && nil == old(nil) && Repr == old(Repr)
      ensures old(Ordered(G(), N, sub)) ==> Ordered(G(), N, sub)
    {
      assert Flip(Flip(dir)) == dir;
      ghost var gb := G();
      ghost var N0, sub0, bh0 := N, sub, bh;
      DeleteFacts(gb, N0, sub0, bh0, x, p, Flip(dir));
      ghost var bh1 := bh0[p := bh0[p] - 1];
      ShapeRed(w, true, bh1);
      BlackNephewsStep(gb, G(), N0, sub0, bh0, bh1, x, p, Flip(dir), w);
    }

    /**
     * Black sibling w whose far child is black and near child wo red (source
     * lines 142-149): wo turns black, w red, and rotate(w, dir) leaves x a
     * black sibling with a red far child.
     */
    method FarBlack(x: PNode, p: PNode, dir: Dir, w: PNode, wo: PNode)
      requires DeleteInv(G(), N, sub, bh, x, p, Flip(dir)) && x != root && !Red(G(), x)
      requires p in Repr && w == G().slots[p].Child(dir) && w in Repr && !Red(G(), w)
      requires wo == G().slots[w].Child(Flip(dir)) && !Red(G(), G().slots[w].Child(dir)) && Red(G(), wo)
      modifies this, Repr
      ensures DeleteInv(G(), N, sub, bh, x, p, Flip(dir)) && x != root && p in Repr && !Red(G(), x)
      ensures var w' := G().slots[p].Child(dir);
              w' in G().slots && !Red(G(), w') && G().slots[w'].Child(dir) in G().slots && Red(G(), G().slots[w'].Child(dir))
      ensures x in old(sub) && x in sub && sub[x] == old(sub[x])
      ensures N == old(N) && SameKeys(old(G()), G()) && nil == old(nil) && Repr == old(Repr)
      ensures old(Ordered(G(), N, sub)) ==> Ordered(G(), N, sub)
    {
      assert Flip(Flip(dir)) == dir;
      ghost var gb := G();
      ghost var N0, sub0, bh0 := N, sub, bh;
      FarBlackReady(gb, N0, sub0, bh0, x, p, Flip(dir), w);
      ghost var sub1 := RotateSub(FarBlackColours(gb, w, wo), sub0, w, dir);
      SetShape(N0, sub1, bh0);
      Paint2(wo, false, w, true);
      Rotate(w, dir);
      FarBlackStep(gb, G(), N0, sub0, sub1, bh0, x, p, Flip(dir), w, wo);
    }

    /**
     * Black sibling w with a red far child wc (source lines 151-155): w takes
     * p's colour, p and wc turn black, and rotate(p, dir ^ 1) restores the
     * missing black; p and w exchange black heights.
     */
    method FarRed(x: PNode, p: PNode, dir: Dir, w: PNode, wc: PNode)
      requires DeleteInv(G(), N, sub, bh, x, p, Flip(dir)) && x != root && !Red(G(), x)
      requires p in Repr && w == G().slots[p].Child(dir) && w in Repr && !Red(G(), w)
      requires wc == G().slots[w].Child(dir) && Red(G(), wc)
      modifies this, Repr
      ensures DeleteInv(G(), N, sub, bh, root, nil, Flip(dir))
      ensures x in old(sub) && |N - sub[root]| < |N - old(sub[x])|
      ensures N == old(N) && SameKeys(old(G()), G()) && nil == old(nil) && Repr == old(Repr)
      ensures old(Ordered(G(), N, sub)) ==> Ordered(G(), N, sub)
    {
      assert Flip(Flip(dir)) == dir;
      ghost var gb := G();
      ghost var N0, sub0, bh0 := N, sub, bh;
      FarRedReady(gb, N0, sub0, bh0, x, p, Flip(dir), w);
      ghost var sub1 := RotateSub(FarRedColours(gb, p, w, wc), sub0, p, Flip(dir));
      ghost var bh1 := SwapHeights(bh0, p, w);
      SetShape(N0, sub1, bh1);
      assert gb.slots[p].red == p.red;
      Paint3(w, p.red, p, false, wc, false);
      Rotate(p, Flip(dir));
      FarRedStep(gb, G(), N0, sub0, sub1, bh0, bh1, x, p, Flip(dir), w, wc);
    }

    /**
     * One pass of `delete_fixup` once x's sibling w is black: two black
     * nephews move the shortage up to p; otherwise a red far nephew (after
     * rotating a red near nephew into its place) lets one rotation at p
     * restore the missing black, and x becomes the root.
     */
    method BlackSibling(x: PNode, p: PNode, dir: Dir, w: PNode) returns (x': PNode, ghost xp': PNode?, ghost xd': Dir)
      requires DeleteInv(G(), N, sub, bh, x, p, Flip(dir)) && x != root && !Red(G(), x)
      requires p in Repr && w == G().slots[p].Child(dir) && w in Repr && !Red(G(), w)
      requires G().slots[w].left in G().slots && G().slots[w].right in G().slots
      modifies this, Repr
      ensures x' in Repr && DeleteInv(G(), N, sub, bh, x', xp', xd')
      ensures x in old(sub) && x' in sub && |N - sub[x']| < |N - old(sub[x])|
      ensures N == old(N) && SameKeys(old(G()), G()) && nil == old(nil) && Repr == old(Repr)
      ensures old(Ordered(G(), N, sub)) ==> Ordered(G(), N, sub)
    {
      assert Flip(Flip(dir)) == dir;
      ghost var gb := G();
      assert gb.slots[w] == Rec(w.parent, w.left, w.right, w.key, w.red);
      var wl: PNode := w.left;
      var wr: PNode := w.right;
      assert gb.slots[wl].red == wl.red && gb.slots[wr].red == wr.red;
      if !wl.red && !wr.red {
        BlackNephews(x, p, dir, w);
        x' := p;
        xp', xd' := G().slots[p].parent, SideOf(G(), p);
      } else {
        var wc: PNode := w.Child(dir);
        var wo: PNode := w.Child(Flip(dir));
        var w1 := w;
        assert gb.slots[wc].red == wc.red;
        if !wc.red {
          FarBlack(x, p, dir, w, wo);
          assert G().slots[p].Child(dir) == p.Child(dir);
          w1 := p.Child(dir);
          assert G().slots[w1].Child(dir) == w1.Child(dir);
          wc := w1.Child(dir);
        }
        ghost var g3 := G();
        FarRed(x, p, dir, w1, wc);
        SameKeysTrans(gb, g3, G());
        x' := root;
        xp', xd' := nil, Flip(dir);
      }
    }

    /** One pass of `delete_fixup`'s loop: a red sibling is first rotated above p, then the black-sibling cases apply. */
    method FixupPass(x: PNode, ghost xp: PNode?, ghost xd: Dir) returns (x': PNode, ghost xp': PNode?, ghost xd': Dir)
      requires x in Repr && DeleteInv(G(), N, sub, bh, x, xp, xd) && x != root && !x.red
      modifies this, Repr
      ensures x' in Repr && DeleteInv(G(), N, sub, bh, x', xp', xd')
      ensures x in old(sub) && x' in sub && |N - sub[x']| < |N - old(sub[x])|
      ensures N == old(N) && SameKeys(old(G()), G()) && nil == old(nil) && Repr == old(Repr)
      ensures old(Ordered(G(), N, sub)) ==> Ordered(G(), N, sub)
    {
      ghost var gb := G();
      assert gb.slots[x] == Rec(x.parent, x.left, x.right, x.key, x.red);
      DeleteFacts(gb, N, sub, bh, x, x.parent, xd);
      var p: PNode := x.parent;
      assert gb.slots[p] == Rec(p.parent, p.left, p.right, p.key, p.red);
      var dir: Dir := if x == p.left then 1 else 0;
      assert xd == Flip(dir);
      var w: PNode := p.Child(dir);
      assert gb.slots[w].red == w.red;
      if w.red {
        RedSibling(x, p, dir, w);
        DeleteFacts(G(), N, sub, bh, x, p, xd);
        assert G().slots[p].Child(dir) == p.Child(dir);
        w := p.Child(dir);
      }
      ghost var g2 := G();
      x', xp', xd' := BlackSibling(x, p, dir, w);
      SameKeysTrans(gb, g2, G());
    }

    /**
     * `delete_fixup(x)`: the repair loop after a black node left the tree
     * and x took its place one black short. Each pass looks at x's sibling
     * w: a red w is first rotated above p; two black nephews make w red and
     * move the shortage up to p; otherwise one or two rotations restore the
     * missing black and x becomes the root. x is then blackened.
     */
    method DeleteFixup(x0: PNode, ghost xp0: PNode?, ghost xd0: Dir)
      requires x0 in Repr && DeleteInv(G(), N, sub, bh, x0, xp0, xd0)
      modifies this, Repr
      ensures RedBlack(G(), N, sub, bh)
      ensures N == old(N) && SameKeys(old(G()), G()) && nil == old(nil) && Repr == old(Repr)
      ensures old(Ordered(G(), N, sub)) ==> Ordered(G(), N, sub)
    {
      ghost var g0 := G();
      ghost var ordered := Ordered(G(), N, sub);
      var x := x0;
      ghost var xp, xd := xp0, xd0;
      while x != root && !x.red
        invariant x in Repr && DeleteInv(G(), N, sub, bh, x, xp, xd)
        invariant ordered ==> Ordered(G(), N, sub)
        invariant N == old(N) && SameKeys(g0, G()) && nil == g0.nil && Repr == old(Repr)
        decreases |N - sub[x]|
      {
        ghost var gb := G();
        x, xp, xd := FixupPass(x, xp, xd);
        SameKeysTrans(g0, gb, G());
      }
      ghost var ge := G();
      assert ge.slots[x].red == x.red;
      WriteRed(x, false);
      DeleteDoneStep(ge, G(), N, sub, bh, x, xp, xd);
      SameKeysTrans(g0, ge, G());
    }

    /** The link writes of the splice: x's parent becomes yp, then x becomes the root or yp's child on y's side. */
    method Relink(y: PNode, x: PNode, yp: PNode)
      requires y in Repr && x in Repr && yp in Repr
      requires x == SpliceChild(G(), y) && yp == G().slots[y].parent
      modifies this, Repr
      ensures G() == Splice(old(G()), y)
      ensures Repr == old(Repr) && nil == old(nil) && N == old(N) && sub == old(sub) && bh == old(bh)
    {
      WriteParent(x, yp);
      if yp == nil {
        WriteRoot(x);
      } else {
        assert G().slots[yp].left == yp.left;
        var side: Dir := if y == yp.left then 0 else 1;
        WriteChild(yp, side, x);
      }
    }

    /**
     * The splice in `delete` (source lines 281-297): x, the child replacing
     * y, takes y's parent as its parent (written even when x is the sentinel)
     * and becomes the root or y's parent's child on y's side. y leaves the
     * tree but stays allocated with its record; if y was red the tree is
     * still red-black, otherwise x is one black short.
     */
    method Unlink(y: PNode) returns (x: PNode, ghost xp: PNode?, ghost xd: Dir)
      requires RedBlack(G(), N, sub, bh) && Spliceable(G(), N, sub, y)
      modifies this, Repr
      ensures SpliceChild(old(G()), y) in old(G()).slots && old(G()).slots[y].parent in old(G()).slots
      ensures x == SpliceChild(old(G()), y) && G() == Splice(old(G()), y)
      ensures N == old(N) - {y} && sub == RemoveSub(old(sub), y) && bh == old(bh)
      ensures y in Repr && G().slots[y] == old(G()).slots[y] && SameKeys(old(G()), G())
      ensures old(Ordered(G(), N, sub)) ==> Ordered(G(), N, sub)
      ensures Red(G(), y) ==> RedBlack(G(), N, sub, bh)
      ensures !Red(G(), y) ==> x in Repr && DeleteInv(G(), N, sub, bh, x, xp, xd)
      ensures nil == old(nil) && Repr == old(Repr)
    {
      ghost var g := G();
      ghost var N0, sub0, bh0 := N, sub, bh;
      SpliceFacts(g, N0, sub0, y);
      assert g.slots[y] == Rec(y.parent, y.left, y.right, y.key, y.red);
      xp, xd := y.parent, SideOf(g, y);
      ghost var N1, sub1 := N0 - {y}, RemoveSub(sub0, y);
      SetShape(N1, sub1, bh0);
      var dir: Dir := if y.left != nil then 0 else 1;
      x := y.Child(dir);
      var yp: PNode := y.parent;
      Relink(y, x, yp);
      UnlinkStep(g, G(), N0, sub0, bh0, N1, sub1, y);
    }

    /** `mem::swap` of the keys of z and y (source line 300); nothing else changes. */
    method SwapKeys(z: PNode, y: PNode)
      requires z in Repr && y in Repr
      modifies z, y
      ensures G() == SetKey(SetKey(old(G()), z, old(y.key)), y, old(z.key))
      ensures Repr == old(Repr) && root == old(root) && nil == old(nil)
      ensures N == old(N) && sub == old(sub) && bh == old(bh)
    {
      var zk := z.key;
      WriteKey(z, y.key);
      WriteKey(y, zk);
    }

    /**
     * The splice and the key exchange of `delete`: y leaves the tree and,
     * when y is not z, z and y exchange keys. y keeps its colour; if it was
     * red the tree is red-black, otherwise x is one black short.
     */
    method Detach(z: PNode, y: PNode) returns (x: PNode, ghost xp: PNode?, ghost xd: Dir)
      requires RedBlack(G(), N, sub, bh) && Spliceable(G(), N, sub, y) && z in N
      modifies this, Repr
      ensures N == old(N) - {y} && y in Repr && Repr == old(Repr) && nil == old(nil) && y.red == old(y.red)
      ensures y.red ==> RedBlack(G(), N, sub, bh)
      ensures !y.red ==> x in Repr && DeleteInv(G(), N, sub, bh, x, xp, xd)
      ensures G().slots.Keys == old(G()).slots.Keys && KeysAgree(old(G()), G(), old(G()).slots.Keys - {y, z})
      ensures y != z ==> G().slots[z].key == old(G()).slots[y].key
      ensures y == z && old(Ordered(G(), N, sub)) ==> Ordered(G(), N, sub)
    {
      ghost var g0 := G();
      x, xp, xd := Unlink(y);
      ghost var gs := G();
      if y != z {
        SwapKeys(z, y);
        SwapKeysStep(gs, G(), N, sub, bh, x, xp, xd, y, z);
      }
      assert G().slots[y].red == y.red;
    }

    /**
     * The tree surgery of `delete` once z is found (source lines 274-304): y
     * is z itself when z has at most one child and `tree_successor(z)`
     * otherwise; y is spliced out; when y is not z, z and y exchange keys;
     * when y was black, `delete_fixup` repairs the tree. y stays allocated
     * but leaves the tree.
     */
    method SpliceOut(z: PNode) returns (y: PNode)
      requires RedBlack(G(), N, sub, bh) && z in N
      modifies this, Repr
      ensures y in old(N) && N == old(N) - {y} && y in Repr && Repr == old(Repr)
      ensures RedBlack(G(), N, sub, bh) && nil == old(nil)
      ensures KeysAgree(old(G()), G(), old(N) - {y, z})
      ensures y != z ==> G().slots[z].key == old(G()).slots[y].key
      ensures old(z.left == nil || z.right == nil) ==> y == z
      ensures y == z && old(Ordered(G(), N, sub)) ==> Ordered(G(), N, sub)
    {
      ghost var g0, N0 := G(), N;
      assert g0.slots[z] == Rec(z.parent, z.left, z.right, z.key, z.red);
      if z.left == nil || z.right == nil {
        y := z;
      } else {
        y := TreeSuccessor(z);
        LeftmostMinimum(G(), N, sub, z);
      }
      var x;
      ghost var xp, xd;
      x, xp, xd := Detach(z, y);
      ghost var gw := G();
      if !y.red {
        DeleteFixup(x, xp, xd);
      }
      SwapDeleteKeys(g0, g0, gw, G(), N0, y, z);
    }

    /**
     * `delete(key)`: find a node z holding key (or do nothing), splice out z
     * or its successor y, move y's key into z and repair. The tree loses
     * exactly one occurrence of key when the search finds it and stays
     * red-black; y is never freed, so the allocated nodes stay the same.
     * It keeps the descent order when z has at most one child; otherwise the
     * key y brings into z breaks it (see `TreeSuccessor`).
     */
    method Delete(key: int)
      requires Valid()
      modifies this, Repr
      ensures Valid() && nil == old(nil) && Repr == old(Repr) && N <= old(N)
      ensures var found := old(Descend(G(), N, sub, root, key));
              && old(Ordered(G(), N, sub))
              && (found.Some? ==> found.value in old(G()).slots
                                  && (old(G()).slots[found.value].left == nil || old(G()).slots[found.value].right == nil))
              ==> Ordered(G(), N, sub)
      ensures old(Descend(G(), N, sub, root, key)).None? ==> G() == old(G()) && N == old(N)
      ensures var found := old(Descend(G(), N, sub, root, key)).Some?;
              forall k :: Occurrences(G(), N, k) + (if found && k == key then 1 else 0) == old(Occurrences(G(), N, k))
    {
      ghost var g0, N0 := G(), N;
      var found := SearchNode(key);
      if found.None? {
        return;
      }
      var z := found.value;
      var y := SpliceOut(z);
      RemoveNodeOccurrences(g0, G(), N0, y, z);
    }
  }
}
