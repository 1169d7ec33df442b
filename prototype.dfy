/**
 * The prototype arena tree, `RedBlack` of the slab-red-black crate
 * (slab-red-black/src/lib.rs): the same slab layout and the same `rotate`
 * and `search` as the arena variant, but an `insert` that only attaches a
 * leaf where the descent ends (equal keys go left) and a repair step that
 * only blackens the root. So the prototype keeps a linked search tree with
 * a black root, not a red-black tree; that is what its invariant says.
 */
module RbPrototype {
  import opened RbGraph
  import opened RbInvariants
  import opened RbInsert
  import opened RbQuery
  import opened RbStorage
  import RbSlab

  /** Writing a fresh slot, then another slot, then the fresh one again, leaves only the last two writes. */
  lemma OverwriteSlot<V>(s: map<nat, V>, n: nat, a: V, y: nat, b: V, c: V)
    requires n !in s && y in s
    ensures s[n := a][y := b][n := c] == s[y := b][n := c]
  {
  }

  /** A fresh slot z turned red leaves the tree linked and insertion's descent where it was. */
  lemma FreshRedKeeps(g0: Graph<nat>, g1: Graph<nat>, g2: Graph<nat>, N: set<nat>, sub: map<nat, set<nat>>, z: nat, k: int)
    requires Linked(g0, N, sub) && g0.root != g0.nil && AddedSlot(g0, g1, z) && g2 == SetRed(g1, z, true)
    ensures Linked(g2, N, sub) && g2.root == g0.root
    ensures InsertDescent(g2, N, sub, g2.root, k, false) == InsertDescent(g0, N, sub, g0.root, k, false)
  {
    AddSlotKeeps(g0, g1, N, sub, map[], z);
    SetRedSameLinks(g1, z, true);
    SameLinksKeep(g1, g2, N, sub);
    InsertDescentFrame(g0, g2, N, sub, g0.root, k, false);
  }

  /**
   * Attaching a fresh leaf z holding k below y on side d, where k fits,
   * keeps a linked search tree linked and ordered, adds one occurrence of k,
   * and leaves the root black (z becomes the root only into an empty tree,
   * and then black).
   */
  lemma LeafStep(g0: Graph<nat>, g1: Graph<nat>, g': Graph<nat>, N: set<nat>, sub: map<nat, set<nat>>,
                 z: nat, y: nat, d: Dir, k: int, red: bool)
    requires Linked(g0, N, sub) && Ordered(g0, N, sub) && !Red(g0, g0.root)
    requires AddedSlot(g0, g1, z) && g1.slots[z] == Rec(g0.nil, g0.nil, g0.nil, k, red)
    requires y == g0.nil ==> g0.root == g0.nil && !red
    requires y != g0.nil ==> y in N && g1.slots[y].Child(d) == g0.nil && FitsBelow(g1, N, sub, y, d, k)
    requires g' == Attach(g1, z, y, d)
    ensures Linked(g', N + {z}, AttachSub(sub, y, z)) && Ordered(g', N + {z}, AttachSub(sub, y, z))
    ensures !Red(g', g'.root) && g'.nil == g0.nil && g'.slots.Keys == g0.slots.Keys + {z}
    ensures forall j :: Occurrences(g', N + {z}, j) == Occurrences(g0, N, j) + (if j == k then 1 else 0)
    ensures Keys(g', N + {z}) == Keys(g0, N) + {k}
  {
    AddSlotKeeps(g0, g1, N, sub, map[], z);
    assert z != g0.nil && z !in N;
    assert Attachable(g1, N, sub, z, y, d);
    AttachLinked(g1, N, sub, z, y, d);
    AttachOrdered(g1, N, sub, z, y, d);
    assert KeysAgree(g0, g', N);
    AddNodeOccurrences(g0, g', N, z, k);
  }

  /**
   * The slab after inserting 5, 1, 8, 7 and 9 into a new tree (the rotation
   * scenario, source lines 193-229): 5 at entry 1 is the black root, 1 at
   * entry 2 its left child, 8 at entry 3 its right child, and 7 and 9 at
   * entries 4 and 5 are 8's children; only the root is black, since the
   * repair step blackens nothing else.
   */
  function ScenarioTree(): (g: Graph<nat>) {
    Graph(map[0 := NewRec(0, RbSlab.NULL),
              1 := Rec(0, 2, 3, 5, false),
              2 := Rec(1, 0, 0, 1, true),
              3 := Rec(1, 4, 5, 8, true),
              4 := Rec(3, 0, 0, 7, true),
              5 := Rec(3, 0, 0, 9, true)], 1, 0)
  }

  /** The slab the scenario expects after `rotate(1, 0)` (source lines 231-253): 8 is the root, 5 its left child holding 1 and 7. */
  function ScenarioRotated(): (g: Graph<nat>) {
    Graph(map[0 := NewRec(0, RbSlab.NULL),
              1 := Rec(3, 2, 4, 5, false),
              2 := Rec(1, 0, 0, 1, true),
              3 := Rec(0, 1, 5, 8, true),
              4 := Rec(1, 0, 0, 7, true),
              5 := Rec(3, 0, 0, 9, true)], 3, 0)
  }

  /** `rotate(1, 0)` turns the scenario tree into the expected rotated slab, every key staying at its entry. */
  lemma RotateLeftScenario()
    ensures CanRotate(ScenarioTree(), 1, 0)
    ensures RbGraph.Rotate(ScenarioTree(), 1, 0) == ScenarioRotated()
  {
    var g := ScenarioTree();
    var g' := RbGraph.Rotate(g, 1, 0);
    assert g'.slots.Keys == ScenarioRotated().slots.Keys;
  }

  /** `rotate(3, 1)` on the rotated slab gives back the scenario tree exactly (source lines 255-279). */
  lemma RotateBackScenario()
    ensures CanRotate(ScenarioRotated(), 3, 1)
    ensures RbGraph.Rotate(ScenarioRotated(), 3, 1) == ScenarioTree()
  {
    var g := ScenarioRotated();
    var g' := RbGraph.Rotate(g, 3, 1);
    assert g'.slots.Keys == ScenarioTree().slots.Keys;
  }

  class ProtoRedBlack {
    /** The occupied slab entries; the prototype never frees one, so they are the indices below len. */
    var slab: map<nat, Rec<nat>>
    var len: nat
    var root: nat
    var nil: nat

    ghost var N: set<nat>
    ghost var sub: map<nat, set<nat>>

    /** The storage graph the fields describe. */
    function G(): (g: Graph<nat>)
      reads this
    {
      Graph(slab, root, nil)
    }

    /** A linked search tree with a black root, whose slab holds exactly its nodes and the sentinel. */
    ghost predicate Valid()
      reads this
    {
      && Linked(G(), N, sub) && Ordered(G(), N, sub) && !Red(G(), root)
      && slab.Keys == N + {nil}
      && forall i :: i in slab ==> i < len
    }

    /** `new`: the sentinel (default key, links `NULL`, black) takes the slab's first entry and is the root. */
    constructor ()
      ensures Valid() && N == {} && root == nil && nil == 0 && len == 1
      ensures slab == map[0 := NewRec(0, RbSlab.NULL)]
    {
      slab := map[];
      len := 0;
      root := RbSlab.NULL;
      nil := RbSlab.NULL;
      N := {};
      sub := map[];
      new;
      var s := SlabInsert(NewRec(0, RbSlab.NULL));
      nil := s;
      root := s;
      sub := map[s := {}];
    }

    /** `Slab::insert` on a slab that never frees: the next unused index. */
    method SlabInsert(r: Rec<nat>) returns (i: nat)
      requires forall j :: j in slab ==> j < len
      modifies this
      ensures i == old(len) && i !in old(slab) && slab == old(slab)[i := r] && len == old(len) + 1
      ensures forall j :: j in slab ==> j < len
      ensures root == old(root) && nil == old(nil) && N == old(N) && sub == old(sub)
    {
      i := len;
      len := len + 1;
      slab := slab[i := r];
    }

    /** `self.slab[n].parent = p`. */
    method WriteParent(n: nat, p: nat)
      requires n in slab
      modifies this
      ensures G() == SetParent(old(G()), n, p)
      ensures len == old(len) && N == old(N) && sub == old(sub)
    {
      slab := slab[n := slab[n].(parent := p)];
    }

    /** `self.slab[n].children[d] = c`. */
    method WriteChild(n: nat, d: Dir, c: nat)
      requires n in slab
      modifies this
      ensures G() == SetChild(old(G()), n, d, c)
      ensures len == old(len) && N == old(N) && sub == old(sub)
    {
      slab := slab[n := slab[n].WithChild(d, c)];
    }

    /** `self.slab[n].red = b`. */
    method WriteRed(n: nat, b: bool)
      requires n in slab
      modifies this
      ensures G() == SetRed(old(G()), n, b)
      ensures len == old(len) && N == old(N) && sub == old(sub)
    {
      slab := slab[n := slab[n].(red := b)];
    }

    /** `rotate(x, dir)`: the prototype's writes, in its order; they are the arena variant's. */
    method Rotate(x: nat, dir: Dir)
      requires CanRotate(G(), x, dir)
      modifies this
      ensures G() == RbGraph.Rotate(old(G()), x, dir)
      ensures len == old(len) && N == old(N) && sub == old(sub)
    {
      ghost var g := G();
      var y := slab[x].Child(Flip(dir));
      WriteChild(x, Flip(dir), slab[y].Child(dir));
      ghost var g1 := G();
      var yChild := slab[y].Child(dir);
      if yChild != nil {
        WriteParent(yChild, x);
      }
      ghost var g2 := G();
      WriteParent(y, slab[x].parent);
      ghost var g3 := G();
      var xParent := slab[x].parent;
      if xParent == nil {
        root := y;
      } else {
        var sibDir := if slab[xParent].left == x then 0 else 1;
        WriteChild(xParent, sibDir, y);
      }
      ghost var g4 := G();
      WriteChild(y, dir, x);
      ghost var g5 := G();
      WriteParent(x, y);
      RotateSteps(g, x, dir, g1, g2, g3, g4, g5);
    }

    /**
     * The descent loop of `insert` on a non-empty tree: go right when the
     * node's key is below key and left otherwise (so equal keys go left),
     * until the next link is the sentinel. The result is where insertion's
     * descent ends: the last node, with the free side the descent left it
     * by, where key fits.
     */
    method FindLeaf(key: int) returns (y: nat, d: Dir)
      requires Linked(G(), N, sub) && root != nil
      ensures (y, d) == InsertDescent(G(), N, sub, root, key, false)
      ensures y in N && slab[y].Child(d) == nil && d == (if slab[y].key < key then 1 else 0)
      ensures FitsBelow(G(), N, sub, y, d, key)
    {
      y := root;
      d := if slab[y].key < key then 1 else 0;
      assert LinkedAt(G(), N, sub, y);
      while slab[y].Child(d) != nil
        invariant y in N && LinkedAt(G(), N, sub, y) && d == InsertSide(slab[y].key, key, false)
        invariant InsertDescent(G(), N, sub, y, key, false) == InsertDescent(G(), N, sub, root, key, false)
        decreases sub[y]
      {
        var next := slab[y].Child(d);
        assert LinkedAt(G(), N, sub, next);
        var dir: Dir := if slab[next].key < key then 1 else 0;
        y, d := next, dir;
      }
      InsertDescentFitsRoot(G(), N, sub, key, false);
    }

    /**
     * `red_black_fixup(z)`: the prototype's repair step only blackens the
     * root, which a valid prototype tree already has black, so nothing
     * changes.
     */
    method RedBlackFixup(z: nat)
      requires root in slab && !Red(G(), root)
      modifies this
      ensures G() == old(G()) && len == old(len) && N == old(N) && sub == old(sub)
    {
      WriteRed(root, false);
    }

    /** The empty-tree branch of `insert` (source lines 67-73): the fresh entry n becomes the root, black. */
    method InsertRoot(n: nat, ghost g0: Graph<nat>, ghost key: int)
      requires Linked(g0, N, sub) && Ordered(g0, N, sub) && g0.nil == nil && g0.root == nil && !Red(g0, nil)
      requires AddedSlot(g0, G(), n) && slab[n] == NewRec(key, nil)
      modifies this
      ensures root == n && slab == old(slab) && nil == old(nil) && len == old(len)
      ensures Linked(G(), N, sub) && Ordered(G(), N, sub) && !Red(G(), root)
      ensures N == old(N) + {n} && G().slots.Keys == g0.slots.Keys + {n}
      ensures forall j :: Occurrences(G(), N, j) == Occurrences(g0, old(N), j) + (if j == key then 1 else 0)
      ensures Keys(G(), N) == Keys(g0, old(N)) + {key}
    {
      ghost var g1 := G();
      ghost var N0, sub0 := N, sub;
      root := n;
      WriteParent(root, nil);
      WriteRed(n, false);
      assert G() == Attach(g1, n, nil, 0);
      LeafStep(g0, g1, G(), N0, sub0, n, nil, 0, key, false);
      N, sub := N0 + {n}, AttachSub(sub0, nil, n);
    }

    /** The attachment of `insert` (source lines 82-83): the red entry n becomes y's child on side d, with y as its parent. */
    method AttachLeaf(n: nat, y: nat, d: Dir, ghost g0: Graph<nat>, ghost key: int)
      requires Linked(g0, N, sub) && Ordered(g0, N, sub) && g0.nil == nil && !Red(g0, g0.root)
      requires AddedSlot(g0, G(), n) && slab[n] == Rec(nil, nil, nil, key, true)
      requires y in N && slab[y].Child(d) == nil && FitsBelow(G(), N, sub, y, d, key)
      modifies this
      ensures slab == old(slab)[y := old(slab[y]).WithChild(d, n)][n := Rec(y, nil, nil, key, true)]
      ensures root == old(root) && nil == old(nil) && len == old(len)
      ensures Linked(G(), N, sub) && Ordered(G(), N, sub) && !Red(G(), root)
      ensures N == old(N) + {n} && G().slots.Keys == g0.slots.Keys + {n}
      ensures forall j :: Occurrences(G(), N, j) == Occurrences(g0, old(N), j) + (if j == key then 1 else 0)
      ensures Keys(G(), N) == Keys(g0, old(N)) + {key}
    {
      ghost var g1 := G();
      ghost var N0, sub0 := N, sub;
      WriteChild(y, d, n);
      WriteParent(n, y);
      assert G() == Attach(g1, n, y, d);
      LeafStep(g0, g1, G(), N0, sub0, n, y, d, key, true);
      N, sub := N0 + {n}, AttachSub(sub0, y, n);
    }

    /** The non-empty branch of `insert` (source lines 75-87): n turns red and hangs below the leaf the descent ends at. */
    method InsertLeaf(n: nat, ghost g0: Graph<nat>, key: int) returns (ghost y: nat, ghost d: Dir)
      requires Linked(g0, N, sub) && Ordered(g0, N, sub) && g0.nil == nil && !Red(g0, g0.root) && g0.root != nil
      requires AddedSlot(g0, G(), n) && slab[n] == NewRec(key, nil)
      modifies this
      ensures (y, d) == InsertDescent(g0, old(N), old(sub), g0.root, key, false)
      ensures y in old(N) && old(slab[y]).Child(d) == nil
      ensures slab == old(slab)[y := old(slab[y]).WithChild(d, n)][n := Rec(y, nil, nil, key, true)]
      ensures root == old(root) && nil == old(nil) && len == old(len)
      ensures Linked(G(), N, sub) && Ordered(G(), N, sub) && !Red(G(), root)
      ensures N == old(N) + {n} && G().slots.Keys == g0.slots.Keys + {n}
      ensures forall j :: Occurrences(G(), N, j) == Occurrences(g0, old(N), j) + (if j == key then 1 else 0)
      ensures Keys(G(), N) == Keys(g0, old(N)) + {key}
    {
      ghost var g1 := G();
      WriteRed(n, true);
      FreshRedKeeps(g0, g1, G(), N, sub, n, key);
      var leaf, dir := FindLeaf(key);
      AttachLeaf(n, leaf, dir, g0, key);
      y, d := leaf, dir;
    }

    /**
     * `insert(key)`: a fresh entry holding key; into an empty tree it becomes
     * the black root, otherwise a red leaf at the end of the descent (equal
     * keys go left), and the repair step runs. Only the new entry and the one
     * child link of its parent are written, so the tree stays a linked search
     * tree with a black root and gains exactly one occurrence of key. The new
     * entry is the slab's next unused index.
     */
    method Insert(key: int) returns (ghost z: nat)
      requires Valid()
      modifies this
      ensures Valid() && nil == old(nil) && N == old(N) + {z}
      ensures z == old(len) && z !in old(slab) && len == old(len) + 1
      ensures old(root) == old(nil) ==> root == z && slab == old(slab)[z := Rec(nil, nil, nil, key, false)]
      ensures old(root) != old(nil) ==>
                && root == old(root)
                && var (y, d) := old(InsertDescent(G(), N, sub, root, key, false));
                   slab == old(slab)[y := old(slab[y]).WithChild(d, z)][z := Rec(y, nil, nil, key, true)]
      ensures forall k :: Occurrences(G(), N, k) == old(Occurrences(G(), N, k)) + (if k == key then 1 else 0)
      ensures Keys(G(), N) == old(Keys(G(), N)) + {key}
    {
      ghost var g0 := G();
      var n := SlabInsert(NewRec(key, nil));
      z := n;
      if root == nil {
        InsertRoot(n, g0, key);
        return;
      }
      ghost var y, d := InsertLeaf(n, g0, key);
      OverwriteSlot(old(slab), n, NewRec(key, nil), y, old(slab[y]).WithChild(d, n), Rec(y, nil, nil, key, true));
      RedBlackFixup(n);
    }

    /** `search(key)`: key itself if the search descent meets a node holding it; under the descent order, exactly when the tree holds key. */
    method Search(key: int) returns (r: Option<int>)
      requires Linked(G(), N, sub)
      ensures r.Some? ==> r.value == key && Occurrences(G(), N, key) > 0
      ensures r.Some? <==> Descend(G(), N, sub, root, key).Some?
      ensures Ordered(G(), N, sub) ==> (r.Some? <==> Occurrences(G(), N, key) > 0)
    {
      SearchFinds(G(), N, sub, key);
      var curr := root;
      while curr != nil
        invariant curr == nil || curr in N
        invariant Descend(G(), N, sub, curr, key) == Descend(G(), N, sub, root, key)
        decreases sub[curr]
      {
        assert LinkedAt(G(), N, sub, curr);
        if slab[curr].key == key {
          return Some(key);
        }
        var direction := if slab[curr].key < key then 1 else 0;
        curr := slab[curr].Child(direction);
      }
      return None;
    }
  }
  /** The slab the scenario's inserts write, update by update, is ScenarioTree's. */
  lemma ScenarioSlots()
    ensures map[0 := NewRec(0, RbSlab.NULL), 1 := Rec(0, 0, 0, 5, false)]
              [1 := Rec(0, 2, 0, 5, false)][2 := Rec(1, 0, 0, 1, true)]
              [1 := Rec(0, 2, 3, 5, false)][3 := Rec(1, 0, 0, 8, true)]
              [3 := Rec(1, 4, 0, 8, true)][4 := Rec(3, 0, 0, 7, true)]
              [3 := Rec(1, 4, 5, 8, true)][5 := Rec(3, 0, 0, 9, true)]
            == ScenarioTree().slots
  {
  }

  /** One insert of the scenario into a non-empty tree whose slab is s, with the descent for key ending at side d of y. */
  method ScenarioInsert(t: ProtoRedBlack, key: int, ghost s: map<nat, Rec<nat>>, ghost y: nat, ghost d: Dir)
    requires t.Valid() && t.slab == s && t.root != t.nil
    requires InsertDescent(t.G(), t.N, t.sub, t.root, key, false) == (y, d)
    modifies t
    ensures t.Valid() && t.root == old(t.root) && t.nil == old(t.nil) && t.len == old(t.len) + 1
    ensures y in s && t.slab == s[y := s[y].WithChild(d, old(t.len))][old(t.len) := Rec(y, t.nil, t.nil, key, true)]
  {
    var z := t.Insert(key);
  }

  /**
   * The set-up of the rotation scenario (source lines 190-229): inserting 5,
   * 1, 8, 7 and 9 into a new tree builds exactly the slab ScenarioTree
   * describes, entry by entry.
   */
  method BuildScenario() returns (t: ProtoRedBlack)
    ensures t.Valid() && t.G() == ScenarioTree()
  {
    t := new ProtoRedBlack();
    var z := t.Insert(5);
    var s := map[0 := NewRec(0, RbSlab.NULL), 1 := Rec(0, 0, 0, 5, false)];
    assert t.slab == s && t.root == 1 && t.len == 2;
    ScenarioInsert(t, 1, s, 1, 0);
    s := s[1 := Rec(0, 2, 0, 5, false)][2 := Rec(1, 0, 0, 1, true)];
    ScenarioInsert(t, 8, s, 1, 1);
    s := s[1 := Rec(0, 2, 3, 5, false)][3 := Rec(1, 0, 0, 8, true)];
    assert InsertDescent(t.G(), t.N, t.sub, 3, 7, false) == (3, 0);
    ScenarioInsert(t, 7, s, 3, 0);
    s := s[3 := Rec(1, 4, 0, 8, true)][4 := Rec(3, 0, 0, 7, true)];
    assert InsertDescent(t.G(), t.N, t.sub, 3, 9, false) == (3, 1);
    ScenarioInsert(t, 9, s, 3, 1);
    ScenarioSlots();
  }
}
