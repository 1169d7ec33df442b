/**
 * The arena variant, `SlabRedBlack` (src/slab.rs): every node, the sentinel
 * included, is an entry of a slab and refers to the others by index. The
 * class holds the slab's occupied entries as a map from index to record,
 * the root and sentinel indices, and the allocator's own bookkeeping; the
 * ghost fields N, sub and bh annotate the tree (its nodes, each node's
 * subtree, each node's black height) so that every method is proved against
 * the storage-graph definitions of RbGraph and the invariants of
 * RbInvariants.
 */
module RbSlab {
  import opened RbGraph
  import opened RbInvariants
  import opened RbRotate
  import opened RbInsert
  import opened RbDelete
  import opened RbDeleteFixup
  import opened RbQuery
  import opened RbStorage
  import opened RbSteps
  import opened RbValidator

  /** `NULL`: the all-ones 64-bit word, the index every link holds before the sentinel exists. */
  const NULL: nat := 0xFFFF_FFFF_FFFF_FFFF

  /** Occupied and vacant entries lie below len and are disjoint; no entry is vacant twice. */
  ghost predicate SlabBooks(used: set<nat>, len: nat, vacant: seq<nat>) {
    && (forall i :: i in used ==> i < len)
    && (forall j :: 0 <= j < |vacant| ==> vacant[j] < len && vacant[j] !in used)
    && (forall j, j' :: 0 <= j < j' < |vacant| ==> vacant[j] != vacant[j'])
  }

  class SlabRedBlack {
    /** The occupied slab entries. */
    var slab: map<nat, Rec<nat>>
    /** The allocator: entries handed out so far, and the freed ones, most recently freed last. */
    var len: nat
    var vacant: seq<nat>
    var root: nat
    var nil: nat

    ghost var N: set<nat>
    ghost var sub: map<nat, set<nat>>
    ghost var bh: map<nat, nat>

    /** The storage graph the fields describe. */
    function G(): (g: Graph<nat>)
      reads this
    {
      Graph(slab, root, nil)
    }

    /** The allocator's bookkeeping agrees with the occupied entries. */
    ghost predicate Allocator()
      reads this
    {
      SlabBooks(slab.Keys, len, vacant)
    }

    /** A red-black tree whose slab holds exactly its nodes and the sentinel. */
    ghost predicate Valid()
      reads this
    {
      && RedBlack(G(), N, sub, bh)
      && slab.Keys == N + {nil}
      && Allocator()
    }

    /** `new`: an empty slab whose first entry, index 0, becomes the sentinel and the root. */
    constructor ()
      ensures Valid() && N == {} && root == nil && nil == 0
      ensures len == 1 && vacant == []
      ensures Ordered(G(), N, sub)
    {
      slab := map[];
      len := 0;
      vacant := [];
      root := NULL;
      nil := NULL;
      N := {};
      sub := map[];
      bh := map[];
      new;
      var s := SlabInsert(NewRec(0, NULL));
      nil := s;
      root := s;
      sub := map[s := {}];
      bh := map[s := 0];
    }

    /** `Slab::insert`: reuse the most recently freed entry, or else hand out the next unused index. */
    method SlabInsert(r: Rec<nat>) returns (i: nat)
      requires Allocator()
      modifies this
      ensures Allocator()
      ensures i !in old(slab) && slab == old(slab)[i := r]
      ensures i != nil ==> AddedSlot(old(G()), G(), i)
      ensures old(vacant) == [] ==> i == old(len) && len == old(len) + 1 && vacant == []
      ensures old(vacant) != [] ==> i == old(vacant)[|old(vacant)| - 1] && len == old(len) && vacant == old(vacant)[..|old(vacant)| - 1]
      ensures root == old(root) && nil == old(nil)
      ensures N == old(N) && sub == old(sub) && bh == old(bh)
    {
      if |vacant| > 0 {
        i := vacant[|vacant| - 1];
        vacant := vacant[..|vacant| - 1];
      } else {
        i := len;
        len := len + 1;
      }
      slab := slab[i := r];
    }

    /** `Slab::remove`: give the entry back to the allocator and return its record. */
    method SlabRemove(i: nat) returns (r: Rec<nat>)
      requires Allocator() && i in slab
      modifies this
      ensures Allocator()
      ensures r == old(slab)[i] && slab == old(slab) - {i}
      ensures vacant == old(vacant) + [i] && len == old(len)
      ensures root == old(root) && nil == old(nil)
      ensures N == old(N) && sub == old(sub) && bh == old(bh)
    {
      r := slab[i];
      slab := slab - {i};
      vacant := vacant + [i];
    }

    /** Re-annotate the tree: nothing the source stores changes. */
    method SetShape(ghost N': set<nat>, ghost sub': map<nat, set<nat>>, ghost bh': map<nat, nat>)
      modifies this
      ensures N == N' && sub == sub' && bh == bh'
      ensures slab == old(slab) && root == old(root) && nil == old(nil)
      ensures len == old(len) && vacant == old(vacant)
    {
      N, sub, bh := N', sub', bh';
    }

    /** `self.root = r`. */
    method WriteRoot(r: nat)
      modifies this
      ensures G() == old(G()).(root := r)
      ensures len == old(len) && vacant == old(vacant)
      ensures N == old(N) && sub == old(sub) && bh == old(bh)
    {
      root := r;
    }

    /** `self.slab[n].key = k`. */
    method WriteKey(n: nat, k: int)
      requires n in slab
      modifies this
      ensures G() == SetKey(old(G()), n, k)
      ensures len == old(len) && vacant == old(vacant)
      ensures N == old(N) && sub == old(sub) && bh == old(bh)
    {
      slab := slab[n := slab[n].(key := k)];
    }

    /** `self.slab[n].parent = p`. */
    method WriteParent(n: nat, p: nat)
      requires n in slab
      modifies this
      ensures G() == SetParent(old(G()), n, p)
      ensures len == old(len) && vacant == old(vacant)
      ensures N == old(N) && sub == old(sub) && bh == old(bh)
    {
      slab := slab[n := slab[n].(parent := p)];
    }

    /** `self.slab[n].children[d] = c`. */
    method WriteChild(n: nat, d: Dir, c: nat)
      requires n in slab
      modifies this
      ensures G() == SetChild(old(G()), n, d, c)
      ensures len == old(len) && vacant == old(vacant)
      ensures N == old(N) && sub == old(sub) && bh == old(bh)
    {
      slab := slab[n := slab[n].WithChild(d, c)];
    }

    /** `self.slab[n].red = b`. */
    method WriteRed(n: nat, b: bool)
      requires n in slab
      modifies this
      ensures G() == SetRed(old(G()), n, b)
      ensures len == old(len) && vacant == old(vacant)
      ensures N == old(N) && sub == old(sub) && bh == old(bh)
    {
      slab := slab[n := slab[n].(red := b)];
    }

    /** Three colour writes, a's, b's, then c's, together with the new annotation. */
    method Paint3(a: nat, ca: bool, b: nat, cb: bool, c: nat, cc: bool, ghost sub': map<nat, set<nat>>, ghost bh': map<nat, nat>)
      requires a in slab && b in slab && c in slab
      modifies this
      ensures G() == SetRed(SetRed(SetRed(old(G()), a, ca), b, cb), c, cc)
      ensures len == old(len) && vacant == old(vacant)
      ensures N == old(N) && sub == sub' && bh == bh'
    {
      SetShape(N, sub', bh');
      WriteRed(a, ca);
      WriteRed(b, cb);
      WriteRed(c, cc);
    }

    /** `rotate(x, dir)`: the source's writes, in its order. */
    method Rotate(x: nat, dir: Dir)
      requires CanRotate(G(), x, dir)
      modifies this
      ensures G() == RbGraph.Rotate(old(G()), x, dir)
      ensures len == old(len) && vacant == old(vacant)
      ensures N == old(N) && sub == old(sub) && bh == old(bh)
    {
      ghost var g := G();
      var y := slab[x].Child(Flip(dir));
      WriteChild(x, Flip(dir), slab[y].Child(dir));
      ghost var g1 := G();
      var yChild := slab[y].Child(dir);
      if yChild != nil {
        WriteParent(yChild, x);
      }
      ghost var g2 := G();
      WriteParent(y, slab[x].parent);
      ghost var g3 := G();
      var xParent := slab[x].parent;
      if xParent == nil {
        root := y;
      } else {
        var sibDir := if slab[xParent].left == x then 0 else 1;
        WriteChild(xParent, sibDir, y);
      }
      ghost var g4 := G();
      WriteChild(y, dir, x);
      ghost var g5 := G();
      WriteParent(x, y);
      RotateSteps(g, x, dir, g1, g2, g3, g4, g5);
    }

    /** `tree_minimum(x)`: follow left links down from x; under the descent order that is x's least key. */
    method TreeMinimum(x0: nat) returns (x: nat)
      requires Linked(G(), N, sub) && x0 in N
      ensures x == Leftmost(G(), N, sub, x0)
      ensures x in sub[x0] && x in N && slab[x].left == nil
      ensures Ordered(G(), N, sub) ==> forall n :: n in sub[x0] ==> n in N && slab[x].key <= slab[n].key
    {
      x := x0;
      assert LinkedAt(G(), N, sub, x);
      var l := slab[x].left;
      while l != nil
        invariant x in N && l == slab[x].left
        invariant Leftmost(G(), N, sub, x) == Leftmost(G(), N, sub, x0)
        decreases sub[x]
      {
        assert LinkedAt(G(), N, sub, x);
        x := l;
        assert LinkedAt(G(), N, sub, x);
        l := slab[x].left;
      }
      LeftmostMinimum(G(), N, sub, x0);
    }

    /**
     * `tree_successor(x)`. With a right child it returns `tree_minimum(x)`,
     * the leftmost node of x's own subtree, as the source is written (the
     * textbook successor starts from x's right child). Otherwise it climbs
     * while x is a right child and returns the first ancestor that has x's
     * start below its left child: under the descent order every key of that
     * left subtree is at most x's key, which is at most the ancestor's; when
     * there is no such ancestor, x's key is the greatest of the tree.
     */
    method TreeSuccessor(x0: nat) returns (y: nat)
      requires Linked(G(), N, sub) && x0 in N
      ensures slab[x0].right != nil ==> y == Leftmost(G(), N, sub, x0)
      ensures slab[x0].right == nil ==>
                if y == nil then
                  Ordered(G(), N, sub) ==> forall n :: n in N ==> slab[n].key <= slab[x0].key
                else
                  && y in N && y in slab && slab[y].left in sub && x0 in sub[slab[y].left]
                  && (Ordered(G(), N, sub) ==>
                        && slab[x0].key <= slab[y].key
                        && forall n :: n in sub[slab[y].left] ==> n in N && slab[n].key <= slab[x0].key)
    {
      if slab[x0].right != nil {
        y := TreeMinimum(x0);
        return;
      }
      var x := x0;
      ClimbStart(G(), N, sub, x0);
      ParentOf(G(), N, sub, x);
      y := slab[x].parent;
      while y != nil && x == slab[y].right
        invariant Climbing(G(), N, sub, x0, x) && y == slab[x].parent && y in slab
        decreases |N - sub[x]|
      {
        ParentOf(G(), N, sub, x);
        ClimbStep(G(), N, sub, x0, x);
        x := y;
        ParentOf(G(), N, sub, x);
        y := slab[x].parent;
      }
      ParentOf(G(), N, sub, x);
      ClimbEnd(G(), N, sub, x0, x);
    }

    /** `search_(key)`: the index the search descent reaches, which holds key; none only if the tree lacks it (under the descent order). */
    method SearchNode(key: int) returns (r: Option<nat>)
      requires Linked(G(), N, sub)
      ensures r == Descend(G(), N, sub, root, key)
      ensures r.Some? ==> r.value in N && slab[r.value].key == key
      ensures r.Some? ==> Occurrences(G(), N, key) > 0
      ensures r.None? && Ordered(G(), N, sub) ==> Occurrences(G(), N, key) == 0
    {
      DescendSound(G(), N, sub, root, key);
      SearchFinds(G(), N, sub, key);
      var curr := root;
      while curr != nil
        invariant curr == nil || curr in N
        invariant Descend(G(), N, sub, curr, key) == Descend(G(), N, sub, root, key)
        decreases sub[curr]
      {
        assert LinkedAt(G(), N, sub, curr);
        if slab[curr].key == key {
          return Some(curr);
        }
        var direction := if slab[curr].key < key then 1 else 0;
        curr := slab[curr].Child(direction);
      }
      return None;
    }

    /** `search(key)`: the stored key equal to key, if the search descent finds one. */
    method Search(key: int) returns (r: Option<int>)
      requires Linked(G(), N, sub)
      ensures r.Some? ==> r.value == key && Occurrences(G(), N, key) > 0
      ensures r.Some? <==> Descend(G(), N, sub, root, key).Some?
      ensures Ordered(G(), N, sub) ==> (r.Some? <==> Occurrences(G(), N, key) > 0)
    {
      var found := SearchNode(key);
      if found.Some? {
        return Some(slab[found.value].key);
      }
      return None;
    }

    /**
     * `insert_fixup(z)`: the repair loop after a red leaf z is attached. Each
     * pass either recolours (red uncle) and moves the red-red edge two levels
     * up, or rotates once or twice (black uncle) and ends; the root is then
     * blackened.
     */
    method InsertFixup(z0: nat)
      requires InsertInv(G(), N, sub, bh, z0)
      modifies this
      ensures RedBlack(G(), N, sub, bh)
      ensures N == old(N) && SameKeys(old(G()), G()) && nil == old(nil)
      ensures len == old(len) && vacant == old(vacant)
      ensures old(Ordered(G(), N, sub)) ==> Ordered(G(), N, sub)
    {
      ghost var g0 := G();
      ghost var ordered := Ordered(G(), N, sub);
      var z := z0;
      ParentOf(G(), N, sub, z);
      var p := slab[z].parent;
      while slab[p].red
        invariant InsertInv(G(), N, sub, bh, z) && p == slab[z].parent && p in slab
        invariant N == old(N) && SameKeys(g0, G()) && nil == g0.nil
        invariant len == old(len) && vacant == old(vacant)
        invariant ordered ==> Ordered(G(), N, sub)
        decreases if Red(G(), p) then 1 else 0, |N - sub[z]|
      {
        ghost var gb := G();
        InsertFacts(G(), N, sub, bh, z, p);
        var pp := slab[p].parent;
        assert LinkedAt(G(), N, sub, pp);
        var dir := if slab[pp].left == p then 1 else 0;
        var y := slab[pp].Child(dir);
        if slab[y].red {
          RecolourUp(z, p, pp, y);
          z := pp;
          ParentOf(G(), N, sub, z);
          p := slab[z].parent;
        } else {
          if z == slab[p].Child(dir) {
            RotateInner(z, p, pp, dir);
            z := p;
            p := slab[z].parent;
          }
          RotateOuter(z, p, pp, dir);
        }
        SameKeysTrans(g0, gb, G());
      }
      ghost var ge := G();
      assert root in slab;
      WriteRed(root, false);
      InsertDoneStep(ge, G(), N, sub, bh, z);
      SameKeysTrans(g0, ge, G());
    }

    /** Red uncle y (source lines 95-98): p and y turn black, pp red; the red-red edge may now enter pp. */
    method RecolourUp(z: nat, p: nat, pp: nat, y: nat)
      requires InsertInv(G(), N, sub, bh, z) && p == slab[z].parent && Red(G(), p)
      requires p in slab && pp == slab[p].parent && pp in slab
      requires y == slab[pp].Child(if slab[pp].left == p then 1 else 0) && Red(G(), y)
      modifies this
      ensures N == old(N) && sub == old(sub) && SameKeys(old(G()), G()) && nil == old(nil)
      ensures InsertInv(G(), N, sub, bh, pp) && |N - sub[pp]| < |N - sub[z]|
      ensures len == old(len) && vacant == old(vacant)
      ensures old(Ordered(G(), N, sub)) ==> Ordered(G(), N, sub)
    {
      ghost var gb := G();
      ghost var bh0 := bh;
      InsertFacts(gb, N, sub, bh, z, p);
      assert pp in bh by {
        assert BlackAt(gb, bh, pp, nil, 0);
      }
      SetShape(N, sub, bh0[pp := bh0[pp] + 1]);
      WriteRed(p, false);
      WriteRed(y, false);
      WriteRed(pp, true);
      RecolourUpStep(gb, G(), N, sub, bh0, bh, z, p, pp, y);
    }

    /** Black uncle, z an inner child (source lines 104-111): rotate(p, dir ^ 1) turns p into an outer child of z. */
    method RotateInner(z: nat, p: nat, pp: nat, dir: Dir)
      requires InsertInv(G(), N, sub, bh, z) && p == slab[z].parent && Red(G(), p)
      requires p in slab && pp == slab[p].parent && pp in slab
      requires dir == (if slab[pp].left == p then 1 else 0) && !Red(G(), slab[pp].Child(dir))
      requires z == slab[p].Child(dir)
      modifies this
      ensures InsertInv(G(), N, sub, bh, p) && p in slab && z in slab && pp in slab
      ensures slab[p].parent == z && slab[z].parent == pp && Red(G(), z)
      ensures dir == (if slab[pp].left == z then 1 else 0) && !Red(G(), slab[pp].Child(dir))
      ensures p == slab[z].Child(Flip(dir))
      ensures N == old(N) && SameKeys(old(G()), G()) && nil == old(nil)
      ensures len == old(len) && vacant == old(vacant)
      ensures old(Ordered(G(), N, sub)) ==> Ordered(G(), N, sub)
    {
      ghost var gb := G();
      ghost var sub0 := sub;
      InnerReady(gb, N, sub, bh, z, p, pp, dir);
      SetShape(N, RotateSub(gb, sub0, p, Flip(dir)), bh);
      Rotate(p, Flip(dir));
      InnerStep(gb, G(), N, sub0, sub, bh, z, p, pp, dir);
    }

    /** Black uncle, z an outer child (source lines 113-115): p turns black, pp red, and rotate(pp, dir) lifts p. */
    method RotateOuter(z: nat, p: nat, pp: nat, dir: Dir)
      requires InsertInv(G(), N, sub, bh, z) && p == slab[z].parent && Red(G(), p)
      requires p in slab && pp == slab[p].parent && pp in slab
      requires dir == (if slab[pp].left == p then 1 else 0) && !Red(G(), slab[pp].Child(dir))
      requires z == slab[p].Child(Flip(dir))
      modifies this
      ensures InsertInv(G(), N, sub, bh, z) && p == slab[z].parent && p in slab && !Red(G(), p)
      ensures N == old(N) && SameKeys(old(G()), G()) && nil == old(nil)
      ensures len == old(len) && vacant == old(vacant)
      ensures old(Ordered(G(), N, sub)) ==> Ordered(G(), N, sub)
    {
      ghost var gb := G();
      ghost var sub0 := sub;
      OuterReady(gb, N, sub, bh, z, p, pp, dir);
      SetShape(N, RotateSub(OuterColours(gb, p, pp), sub0, pp, dir), bh);
      WriteRed(p, false);
      WriteRed(pp, true);
      Rotate(pp, dir);
      OuterStep(gb, G(), N, sub0, sub, bh, z, p, pp, dir);
    }

    /**
     * The descent of `insert(key)`: from the root, go left when key is below
     * the node's key and right otherwise (so equal keys go right), until the
     * sentinel. The result is where insertion's descent ends: the last node
     * passed, with the free side the descent left it by, where key fits.
     * With an empty tree the result is the sentinel.
     */
    method FindParent(key: int) returns (y: nat, ghost d: Dir)
      requires Linked(G(), N, sub)
      ensures y == nil <==> root == nil
      ensures y != nil ==> (y, d) == InsertDescent(G(), N, sub, root, key, true)
      ensures y != nil ==> && y in N && slab[y].Child(d) == nil && d == (if key < slab[y].key then 0 else 1)
                           && FitsBelow(G(), N, sub, y, d, key)
    {
      y := nil;
      d := 0;
      var x := root;
      while x != nil
        invariant x == nil || x in N
        invariant y == nil ==> x == root
        invariant y != nil ==> y in N && slab[y].Child(d) == x
        invariant x != nil ==> InsertDescent(G(), N, sub, x, key, true) == InsertDescent(G(), N, sub, root, key, true)
        invariant x == nil && y != nil ==> (y, d) == InsertDescent(G(), N, sub, root, key, true)
        decreases sub[x]
      {
        assert LinkedAt(G(), N, sub, x);
        var dir: Dir := if key < slab[x].key then 0 else 1;
        y := x;
        d := dir;
        x := slab[x].Child(dir);
      }
      if y != nil {
        InsertDescentFitsRoot(G(), N, sub, key, true);
      }
    }

    /** The attachment of `insert`: z's parent becomes y, z becomes y's child on the side its key calls for (or the root), and z turns red. */
    method Link(z: nat, y: nat)
      requires z in slab && y in slab
      modifies this
      ensures G() == SetRed(Attach(old(G()), z, y, if old(slab[z].key < slab[y].key) then 0 else 1), z, true)
      ensures SameKeys(old(G()), G())
      ensures len == old(len) && vacant == old(vacant)
      ensures N == old(N) && sub == old(sub) && bh == old(bh)
    {
      WriteParent(z, y);
      if y == nil {
        WriteRoot(z);
      } else {
        var dir := if slab[z].key < slab[y].key then 0 else 1;
        WriteChild(y, dir, z);
      }
      WriteRed(z, true);
    }

    /**
     * The first half of `insert(key)`: a fresh slab entry holding key, found
     * a parent by the descent and attached red. The tree has one more
     * occurrence of key and is red-black except that z may be a red child of
     * a red parent.
     */
    method AttachNew(key: int) returns (z: nat)
      requires Valid()
      modifies this
      ensures InsertInv(G(), N, sub, bh, z) && N == old(N) + {z} && nil == old(nil)
      ensures slab.Keys == N + {nil} && Allocator()
      ensures z !in old(slab) && z in slab && slab[z].key == key && KeysAgree(old(G()), G(), old(slab.Keys))
      ensures old(vacant) == [] ==> z == old(len) && len == old(len) + 1 && vacant == []
      ensures old(vacant) != [] ==> z == old(vacant)[|old(vacant)| - 1] && len == old(len) && vacant == old(vacant)[..|old(vacant)| - 1]
      ensures forall k :: Occurrences(G(), N, k) == old(Occurrences(G(), N, k)) + (if k == key then 1 else 0)
      ensures Keys(G(), N) == old(Keys(G(), N)) + {key}
      ensures old(Ordered(G(), N, sub)) ==> Ordered(G(), N, sub)
    {
      ghost var g0 := G();
      z := SlabInsert(NewRec(key, nil));
      AddSlotKeeps(g0, G(), N, sub, bh, z);
      var y, d := FindParent(slab[z].key);
      LinkNew(z, y, d, g0, key);
    }

    /** The fresh entry z, holding key, goes where the descent ended, with the annotations of the grown tree. */
    method LinkNew(z: nat, y: nat, ghost d: Dir, ghost g0: Graph<nat>, ghost key: int)
      requires RedBlack(g0, N, sub, bh) && AddedSlot(g0, G(), z) && slab[z] == NewRec(key, nil)
      requires y in slab && (y == nil <==> root == nil)
      requires y != nil ==> && y in N && slab[y].Child(d) == nil && d == (if key < slab[y].key then 0 else 1)
                            && FitsBelow(G(), N, sub, y, d, key)
      requires slab.Keys == N + {nil} + {z}
      modifies this
      ensures len == old(len) && vacant == old(vacant) && nil == old(nil) && N == old(N) + {z}
      ensures InsertInv(G(), N, sub, bh, z) && SameKeys(old(G()), G()) && slab[z].key == key
      ensures Ordered(g0, old(N), old(sub)) ==> Ordered(G(), N, sub)
      ensures forall j :: Occurrences(G(), N, j) == Occurrences(g0, old(N), j) + (if j == key then 1 else 0)
      ensures Keys(G(), N) == Keys(g0, old(N)) + {key}
    {
      ghost var g1 := G();
      ghost var N0, sub0, bh0 := N, sub, bh;
      SetShape(N0 + {z}, AttachSub(sub0, y, z), bh0[z := 1]);
      Link(z, y);
      AttachStep(g0, g1, G(), N0, sub0, bh0, N, sub, bh, z, y, d, key);
    }

    /**
     * `insert(key)`: attach a fresh red node holding key where the descent
     * ends, then repair. The tree gains exactly one occurrence of key, stays
     * red-black, and keeps the descent order if it had it. The new node z
     * takes the slab entry freed last, or the next unused one.
     */
    method Insert(key: int) returns (ghost z: nat)
      requires Valid()
      modifies this
      ensures Valid() && nil == old(nil)
      ensures z !in old(slab) && N == old(N) + {z} && slab[z].key == key && KeysAgree(old(G()), G(), old(slab.Keys))
      ensures old(vacant) == [] ==> z == old(len) && len == old(len) + 1 && vacant == []
      ensures old(vacant) != [] ==> z == old(vacant)[|old(vacant)| - 1] && len == old(len) && vacant == old(vacant)[..|old(vacant)| - 1]
      ensures forall k :: Occurrences(G(), N, k) == old(Occurrences(G(), N, k)) + (if k == key then 1 else 0)
      ensures Keys(G(), N) == old(Keys(G(), N)) + {key}
      ensures old(Ordered(G(), N, sub)) ==> Ordered(G(), N, sub)
    {
      var n := AttachNew(key);
      z := n;
      ghost var ga := G();
      InsertFixup(n);
      SameKeysOccurrences(ga, G(), N);
    }

    /** Red sibling w (source lines 129-136): w turns black, p red, and rotate(p, dir ^ 1) gives x a black sibling. */
    method RedSibling(x: nat, p: nat, dir: Dir, w: nat)
      requires DeleteInv(G(), N, sub, bh, x, p, Flip(dir)) && x != root && !Red(G(), x)
      requires p in slab && w == slab[p].Child(dir) && Red(G(), w)
      modifies this
      ensures DeleteInv(G(), N, sub, bh, x, p, Flip(dir)) && x != root && p in slab && !Red(G(), x)
      ensures !Red(G(), slab[p].Child(dir))
      ensures x in old(sub) && x in sub && sub[x] == old(sub[x])
      ensures N == old(N) && SameKeys(old(G()), G()) && nil == old(nil)
      ensures old(Ordered(G(), N, sub)) ==> Ordered(G(), N, sub)
      ensures len == old(len) && vacant == old(vacant)
    {
      assert Flip(Flip(dir)) == dir;
      ghost var gb := G();
      ghost var sub0 := sub;
      RedSiblingReady(gb, N, sub, bh, x, p, Flip(dir), w);
      SetShape(N, RotateSub(RedSiblingColours(gb, p, w), sub0, p, Flip(dir)), bh);
      WriteRed(w, false);
      WriteRed(p, true);
      Rotate(p, Flip(dir));
      RedSiblingStep(gb, G(), N, sub0, sub, bh, x, p, Flip(dir), w);
    }

    /** Black sibling w with black children (source lines 139-141): w turns red and the missing black moves up to p. */
    method BlackNephews(x: nat, p: nat, dir: Dir, w: nat)
      requires DeleteInv(G(), N, sub, bh, x, p, Flip(dir)) && x != root && !Red(G(), x)
      requires p in slab && w == slab[p].Child(dir) && w in slab && !Red(G(), w)
      requires !Red(G(), slab[w].left) && !Red(G(), slab[w].right)
      modifies this
      ensures p in N && p in slab && slab[p].parent in slab
      ensures DeleteInv(G(), N, sub, bh, p, slab[p].parent, SideOf(G(), p))
      ensures x in sub && p in sub && |N - sub[p]| < |N - sub[x]|
      ensures N == old(N) && sub == old(sub) && SameKeys(old(G()), G()) && nil == old(nil)
      ensures old(Ordered(G(), N, sub)) ==> Ordered(G(), N, sub)
      ensures len == old(len) && vacant == old(vacant)
    {
      assert Flip(Flip(dir)) == dir;
      ghost var gb := G();
      ghost var bh0 := bh;
      DeleteFacts(gb, N, sub, bh, x, p, Flip(dir));
      SetShape(N, sub, bh0[p := bh0[p] - 1]);
      WriteRed(w, true);
      BlackNephewsStep(gb, G(), N, sub, bh0, bh, x, p, Flip(dir), w);
    }

    /**
     * Black sibling w whose far child is black and near child wo red (source
     * lines 145-153): wo turns black, w red, and rotate(w, dir) leaves x a
     * black sibling with a red far child.
     */
    method FarBlack(x: nat, p: nat, dir: Dir, w: nat, wo: nat)
      requires DeleteInv(G(), N, sub, bh, x, p, Flip(dir)) && x != root && !Red(G(), x)
      requires p in slab && w == slab[p].Child(dir) && w in slab && !Red(G(), w)
      requires wo == slab[w].Child(Flip(dir)) && !Red(G(), slab[w].Child(dir)) && Red(G(), wo)
      modifies this
      ensures DeleteInv(G(), N, sub, bh, x, p, Flip(dir)) && x != root && p in slab && !Red(G(), x)
      ensures var w' := slab[p].Child(dir);
              w' in slab && !Red(G(), w') && slab[w'].Child(dir) in slab && Red(G(), slab[w'].Child(dir))
      ensures x in old(sub) && x in sub && sub[x] == old(sub[x])
      ensures N == old(N) && SameKeys(old(G()), G()) && nil == old(nil)
      ensures old(Ordered(G(), N, sub)) ==> Ordered(G(), N, sub)
      ensures len == old(len) && vacant == old(vacant)
    {
      assert Flip(Flip(dir)) == dir;
      ghost var gb := G();
      ghost var sub0 := sub;
      FarBlackReady(gb, N, sub, bh, x, p, Flip(dir), w);
      SetShape(N, RotateSub(FarBlackColours(gb, w, wo), sub0, w, dir), bh);
      WriteRed(wo, false);
      WriteRed(w, true);
      Rotate(w, dir);
      FarBlackStep(gb, G(), N, sub0, sub, bh, x, p, Flip(dir), w, wo);
    }

    /**
     * Black sibling w with a red far child wc (source lines 154-158): w takes
     * p's colour, p and wc turn black, and rotate(p, dir ^ 1) restores the
     * missing black; p and w exchange black heights.
     */
    method FarRed(x: nat, p: nat, dir: Dir, w: nat, wc: nat)
      requires DeleteInv(G(), N, sub, bh, x, p, Flip(dir)) && x != root && !Red(G(), x)
      requires p in slab && w == slab[p].Child(dir) && w in slab && !Red(G(), w)
      requires wc == slab[w].Child(dir) && Red(G(), wc)
      modifies this
      ensures DeleteInv(G(), N, sub, bh, root, nil, Flip(dir))
      ensures x in old(sub) && |N - sub[root]| < |N - old(sub[x])|
      ensures N == old(N) && SameKeys(old(G()), G()) && nil == old(nil)
      ensures old(Ordered(G(), N, sub)) ==> Ordered(G(), N, sub)
      ensures len == old(len) && vacant == old(vacant)
    {
      assert Flip(Flip(dir)) == dir;
      ghost var gb := G();
      ghost var N0, sub0, bh0 := N, sub, bh;
      FarRedReady(gb, N0, sub0, bh0, x, p, Flip(dir), w);
      ghost var sub1 := RotateSub(FarRedColours(gb, p, w, wc), sub0, p, Flip(dir));
      ghost var bh1 := SwapHeights(bh0, p, w);
      assert gb.slots[p].red == slab[p].red;
      Paint3(w, slab[p].red, p, false, wc, false, sub1, bh1);
      Rotate(p, Flip(dir));
      FarRedStep(gb, G(), N0, sub0, sub1, bh0, bh1, x, p, Flip(dir), w, wc);
    }

    /**
     * One pass of `delete_fixup` once x's sibling w is black: two black
     * nephews move the shortage up to p; otherwise a red far nephew (after
     * rotating a red near nephew into its place) lets one rotation at p
     * restore the missing black, and x becomes the root.
     */
    method BlackSibling(x: nat, p: nat, dir: Dir, w: nat) returns (x': nat, ghost xp': nat, ghost xd': Dir)
      requires DeleteInv(G(), N, sub, bh, x, p, Flip(dir)) && x != root && !Red(G(), x)
      requires p in slab && w == slab[p].Child(dir) && w in slab && !Red(G(), w)
      requires slab[w].left in slab && slab[w].right in slab
      modifies this
      ensures x' in slab && DeleteInv(G(), N, sub, bh, x', xp', xd')
      ensures x in old(sub) && x' in sub && |N - sub[x']| < |N - old(sub[x])|
      ensures N == old(N) && SameKeys(old(G()), G()) && nil == old(nil)
      ensures old(Ordered(G(), N, sub)) ==> Ordered(G(), N, sub)
      ensures len == old(len) && vacant == old(vacant)
    {
      assert Flip(Flip(dir)) == dir;
      ghost var gb := G();
      var wl := slab[w].left;
      var wr := slab[w].right;
      if !slab[wl].red && !slab[wr].red {
        BlackNephews(x, p, dir, w);
        xp', xd' := slab[p].parent, SideOf(G(), p);
        x' := p;
      } else {
        var wc := slab[w].Child(dir);
        var wo := slab[w].Child(Flip(dir));
        var w1 := w;
        if !slab[wc].red {
          FarBlack(x, p, dir, w, wo);
          w1 := slab[p].Child(dir);
          wc := slab[w1].Child(dir);
        }
        ghost var g3 := G();
        FarRed(x, p, dir, w1, wc);
        SameKeysTrans(gb, g3, G());
        x' := root;
        xp', xd' := nil, Flip(dir);
      }
    }

    /** One pass of `delete_fixup`'s loop: a red sibling is first rotated above p, then the black-sibling cases apply. */
    method FixupPass(x: nat, ghost xp: nat, ghost xd: Dir) returns (x': nat, ghost xp': nat, ghost xd': Dir)
      requires x in slab && DeleteInv(G(), N, sub, bh, x, xp, xd) && x != root && !slab[x].red
      modifies this
      ensures x' in slab && DeleteInv(G(), N, sub, bh, x', xp', xd')
      ensures x in old(sub) && x' in sub && |N - sub[x']| < |N - old(sub[x])|
      ensures N == old(N) && SameKeys(old(G()), G()) && nil == old(nil)
      ensures old(Ordered(G(), N, sub)) ==> Ordered(G(), N, sub)
      ensures len == old(len) && vacant == old(vacant)
    {
      ghost var gb := G();
      var p := slab[x].parent;
      DeleteFacts(G(), N, sub, bh, x, p, xd);
      var dir: Dir := if x == slab[p].left then 1 else 0;
      assert xd == Flip(dir);
      var w := slab[p].Child(dir);
      if slab[w].red {
        RedSibling(x, p, dir, w);
        w := slab[p].Child(dir);
        DeleteFacts(G(), N, sub, bh, x, p, xd);
      }
      ghost var g2 := G();
      x', xp', xd' := BlackSibling(x, p, dir, w);
      SameKeysTrans(gb, g2, G());
    }

    /**
     * `delete_fixup(x)`: the repair loop after a black node left the tree
     * and x took its place one black short. Each pass looks at x's sibling
     * w: a red w is first rotated above p; two black nephews make w red and
     * move the shortage up to p; otherwise one or two rotations restore the
     * missing black and x becomes the root. x is then blackened.
     */
    method DeleteFixup(x0: nat, ghost xp0: nat, ghost xd0: Dir)
      requires x0 in slab && DeleteInv(G(), N, sub, bh, x0, xp0, xd0)
      modifies this
      ensures RedBlack(G(), N, sub, bh)
      ensures N == old(N) && SameKeys(old(G()), G()) && nil == old(nil)
      ensures old(Ordered(G(), N, sub)) ==> Ordered(G(), N, sub)
      ensures len == old(len) && vacant == old(vacant)
    {
      ghost var g0 := G();
      ghost var ordered := Ordered(G(), N, sub);
      var x := x0;
      ghost var xp, xd := xp0, xd0;
      while x != root && !slab[x].red
        invariant x in slab && DeleteInv(G(), N, sub, bh, x, xp, xd)
        invariant ordered ==> Ordered(G(), N, sub)
        invariant N == old(N) && SameKeys(g0, G()) && nil == g0.nil
        invariant len == old(len) && vacant == old(vacant)
        decreases |N - sub[x]|
      {
        ghost var gb := G();
        x, xp, xd := FixupPass(x, xp, xd);
        SameKeysTrans(g0, gb, G());
      }
      ghost var ge := G();
      WriteRed(x, false);
      DeleteDoneStep(ge, G(), N, sub, bh, x, xp, xd);
      SameKeysTrans(g0, ge, G());
    }

    /**
     * The splice in `delete`: x, the child replacing y, takes y's parent as
     * its parent (written even when x is the sentinel) and becomes the root
     * or y's parent's child on y's side. y leaves the tree but keeps its
     * entry; if y was red the tree is still red-black, otherwise x is one
     * black short.
     */
    method Unlink(y: nat) returns (x: nat, ghost xp: nat, ghost xd: Dir)
      requires RedBlack(G(), N, sub, bh) && Spliceable(G(), N, sub, y)
      modifies this
      ensures SpliceChild(old(G()), y) in old(slab) && old(slab[y].parent) in old(slab)
      ensures x == SpliceChild(old(G()), y) && G() == Splice(old(G()), y)
      ensures N == old(N) - {y} && sub == RemoveSub(old(sub), y) && bh == old(bh)
      ensures y in slab && slab[y] == old(slab[y]) && SameKeys(old(G()), G())
      ensures old(Ordered(G(), N, sub)) ==> Ordered(G(), N, sub)
      ensures slab[y].red ==> RedBlack(G(), N, sub, bh)
      ensures !slab[y].red ==> x in slab && DeleteInv(G(), N, sub, bh, x, xp, xd)
      ensures nil == old(nil) && len == old(len) && vacant == old(vacant)
    {
      ghost var g := G();
      ghost var N0, sub0 := N, sub;
      SpliceFacts(g, N, sub, y);
      xp, xd := slab[y].parent, SideOf(g, y);
      SetShape(N0 - {y}, RemoveSub(sub0, y), bh);
      var dir: Dir := if slab[y].left != nil then 0 else 1;
      x := slab[y].Child(dir);
      var yp := slab[y].parent;
      WriteParent(x, yp);
      if yp == nil {
        WriteRoot(x);
      } else {
        var side: Dir := if y == slab[yp].left then 0 else 1;
        WriteChild(yp, side, x);
      }
      UnlinkStep(g, G(), N0, sub0, bh, N, sub, y);
    }

    /** The end of `delete`: `slab.remove(y)` frees y's entry and, when y is not z, y's key moves into z. */
    method Release(y: nat, z: nat)
      requires RedBlack(G(), N, sub, bh) && Allocator() && y in slab && y != nil && y !in N
      requires y != z ==> z in N
      modifies this
      ensures RedBlack(G(), N, sub, bh) && Allocator()
      ensures var g := old(G()).(slots := old(slab) - {y});
              G() == if y == z then g else SetKey(g, z, old(slab[y].key))
      ensures KeysAgree(old(G()), G(), N - {z})
      ensures y == z && old(Ordered(G(), N, sub)) ==> Ordered(G(), N, sub)
      ensures vacant == old(vacant) + [y] && len == old(len)
      ensures N == old(N) && sub == old(sub) && bh == old(bh)
    {
      ghost var g := G();
      var removed := SlabRemove(y);
      RemoveSlotKeeps(g, G(), N, sub, bh, y);
      if y != z {
        SetKeyKeeps(G(), N, sub, bh, z, removed.key);
        WriteKey(z, removed.key);
      }
    }

    /**
     * The tree surgery of `delete` once z is found: y is z itself when z has
     * at most one child and `tree_successor(z)` otherwise; y is spliced out
     * and, when it was black, `delete_fixup` repairs the tree. y keeps its
     * entry and key; no key moves.
     */
    method SpliceOut(z: nat) returns (y: nat)
      requires RedBlack(G(), N, sub, bh) && z in N
      modifies this
      ensures y in old(N) && N == old(N) - {y} && y in slab
      ensures old(slab[z].left == nil || slab[z].right == nil) ==> y == z
      ensures RedBlack(G(), N, sub, bh) && SameKeys(old(G()), G())
      ensures old(Ordered(G(), N, sub)) ==> Ordered(G(), N, sub)
      ensures nil == old(nil) && len == old(len) && vacant == old(vacant)
    {
      if slab[z].left == nil || slab[z].right == nil {
        y := z;
      } else {
        y := TreeSuccessor(z);
        LeftmostMinimum(G(), N, sub, z);
      }
      ghost var g0 := G();
      var x;
      ghost var xp, xd;
      x, xp, xd := Unlink(y);
      ghost var gs := G();
      if !slab[y].red {
        DeleteFixup(x, xp, xd);
      }
      SameKeysTrans(g0, gs, G());
    }

    /**
     * `delete(key)`: find a node z holding key (or do nothing); pick y = z
     * when z has at most one child and `tree_successor(z)` otherwise; splice
     * y out, writing the parent link of its replacement x even when x is the
     * sentinel; repair if y was black; free y's entry and move y's key into
     * z. The tree loses exactly one occurrence of key when the search finds
     * it and stays red-black. It keeps the descent order when z has at most
     * one child; otherwise y's key lands in z (see `TreeSuccessor`).
     */
    method Delete(key: int) returns (ghost y: nat)
      requires Valid()
      modifies this
      ensures Valid() && nil == old(nil)
      ensures var found := old(Descend(G(), N, sub, root, key));
              && old(Ordered(G(), N, sub))
              && (found.Some? ==> found.value in old(slab) && (old(slab[found.value]).left == nil || old(slab[found.value]).right == nil))
              ==> Ordered(G(), N, sub)
      ensures old(Descend(G(), N, sub, root, key)).None? ==> G() == old(G()) && N == old(N) && len == old(len) && vacant == old(vacant)
      ensures var found := old(Descend(G(), N, sub, root, key));
              found.Some? ==> && found.value in old(N) && y in old(N) && N == old(N) - {y} && y !in slab
                              && vacant == old(vacant) + [y] && len == old(len)
                              && (old(slab[found.value].left == nil || slab[found.value].right == nil) ==> y == found.value)
                              && KeysAgree(old(G()), G(), old(N) - {y, found.value})
                              && (y != found.value ==> found.value in slab && slab[found.value].key == old(slab[y].key))
      ensures var found := old(Descend(G(), N, sub, root, key)).Some?;
              forall k :: Occurrences(G(), N, k) + (if found && k == key then 1 else 0) == old(Occurrences(G(), N, k))
    {
      ghost var g0, N0 := G(), N;
      var found := SearchNode(key);
      if found.None? {
        y := nil;
        return;
      }
      var z := found.value;
      var y' := SpliceOut(z);
      y := y';
      ghost var gf := G();
      Release(y', z);
      KeysAgreeAfter(g0, gf, G(), N0 - {y} - {z}, N0 - {y, z});
      RemoveNodeOccurrences(g0, G(), N0, y, z);
      FreedSlot(g0.slots.Keys, N0, nil, y);
    }
  }

  /**
   * `insert(key)` while no entry has been freed, on a tree whose entries 1 to
   * |ks| hold the keys ks in order: the key goes into the next unused entry,
   * and every other entry keeps its key.
   */
  method InsertFresh(t: SlabRedBlack, key: int, ghost ks: seq<int>)
    requires t.Valid() && t.vacant == [] && t.len == |ks| + 1
    requires forall i :: 1 <= i <= |ks| ==> i in t.slab && t.slab[i].key == ks[i - 1]
    modifies t
    ensures t.Valid() && t.nil == old(t.nil) && t.vacant == [] && t.len == old(t.len) + 1
    ensures t.N == old(t.N) + {old(t.len)}
    ensures forall i :: 1 <= i <= |ks| + 1 ==> i in t.slab && t.slab[i].key == (ks + [key])[i - 1]
  {
    ghost var z := t.Insert(key);
  }

  /** The first three inserts of the rotation test: keys 5, 1 and 8 take entries 1, 2 and 3. */
  method BuildRotationStart() returns (t: SlabRedBlack)
    ensures fresh(t) && t.Valid() && t.nil == 0 && t.len == 4 && t.vacant == [] && t.N == {1, 2, 3}
    ensures forall i :: 1 <= i <= 3 ==> i in t.slab && t.slab[i].key == [5, 1, 8][i - 1]
  {
    t := new SlabRedBlack();
    InsertFresh(t, 5, []);
    InsertFresh(t, 1, [5]);
    InsertFresh(t, 8, [5, 1]);
    assert [5, 1] + [8] == [5, 1, 8];
  }

  /**
   * The opening of the rotation test (src/slab.rs:375-396): after the
   * sentinel takes entry 0, five inserts into a new tree take entries 1 to 5
   * in order, and each entry holds the key inserted into it.
   */
  method BuildRotationTree() returns (t: SlabRedBlack)
    ensures t.Valid() && t.nil == 0 && t.len == 6 && t.vacant == [] && t.N == {1, 2, 3, 4, 5}
    ensures t.slab[1].key == 5 && t.slab[2].key == 1 && t.slab[3].key == 8 && t.slab[4].key == 7 && t.slab[5].key == 9
  {
    t := BuildRotationStart();
    InsertFresh(t, 7, [5, 1, 8]);
    InsertFresh(t, 9, [5, 1, 8, 7]);
    assert [5, 1, 8, 7] + [9] == [5, 1, 8, 7, 9];
  }
}
