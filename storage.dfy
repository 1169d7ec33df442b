/**
 * What the tree invariants make of the storage changes that are not tree
 * surgery: a slot handed out by the allocator, a slot given back, a key
 * written into a node, and the effect of these on the multiset of keys.
 */
module RbStorage {
  import opened RbGraph
  import opened RbInvariants
  import opened RbRotate

  /** g' has every record of g at the same handle and one more slot z. */
  ghost predicate AddedSlot<H>(g: Graph<H>, g': Graph<H>, z: H) {
    && z !in g.slots && g'.root == g.root && g'.nil == g.nil
    && g'.slots.Keys == g.slots.Keys + {z}
    && forall m :: m in g.slots ==> g'.slots[m] == g.slots[m]
  }

  /** A new slot nothing points to changes none of the invariants. */
  lemma AddSlotKeeps<H>(g: Graph<H>, g': Graph<H>, N: set<H>, sub: map<H, set<H>>, bh: map<H, nat>, z: H)
    requires AddedSlot(g, g', z)
    ensures Linked(g, N, sub) ==> Linked(g', N, sub)
    ensures RedBlack(g, N, sub, bh) ==> RedBlack(g', N, sub, bh)
    ensures Ordered(g, N, sub) ==> Ordered(g', N, sub)
  {
    if Linked(g, N, sub) {
      forall n | n in N ensures LinkedAt(g', N, sub, n) {
        assert LinkedAt(g, N, sub, n);
      }
      if RedBlack(g, N, sub, bh) {
        forall n | n in N
          ensures RedEdgeAt(g', n, g.nil, g.nil)
          ensures BlackAt(g', bh, n, g.nil, 0)
        {
          assert LinkedAt(g, N, sub, n);
          assert RedEdgeAt(g, n, g.nil, g.nil);
          assert BlackAt(g, bh, n, g.nil, 0);
          assert BlackEdge(g, bh, n, 0, 0) && BlackEdge(g, bh, n, 1, 0);
        }
      }
    }
    if Ordered(g, N, sub) {
      forall n | n in N ensures OrderedAt(g', sub, n) {
        assert OrderedAt(g, sub, n);
      }
    }
  }

  /** g' is g without the slot y, which is neither a tree node nor the sentinel. */
  ghost predicate RemovedSlot<H>(g: Graph<H>, g': Graph<H>, y: H) {
    && y in g.slots && y != g.nil && g'.root == g.root && g'.nil == g.nil
    && g'.slots == g.slots - {y}
  }

  /** Giving back a slot outside the tree keeps a red-black tree red-black. */
  lemma RemoveSlotKeeps<H>(g: Graph<H>, g': Graph<H>, N: set<H>, sub: map<H, set<H>>, bh: map<H, nat>, y: H)
    requires RemovedSlot(g, g', y) && y !in N && RedBlack(g, N, sub, bh)
    ensures RedBlack(g', N, sub, bh)
    ensures Ordered(g, N, sub) ==> Ordered(g', N, sub)
  {
    if Ordered(g, N, sub) {
      forall n | n in N ensures OrderedAt(g', sub, n) {
        assert LinkedAt(g, N, sub, n) && OrderedAt(g, sub, n);
      }
    }
    forall n | n in N
      ensures LinkedAt(g', N, sub, n)
      ensures RedEdgeAt(g', n, g.nil, g.nil)
      ensures BlackAt(g', bh, n, g.nil, 0)
    {
      assert LinkedAt(g, N, sub, n);
      assert RedEdgeAt(g, n, g.nil, g.nil);
      assert BlackAt(g, bh, n, g.nil, 0);
      assert BlackEdge(g, bh, n, 0, 0) && BlackEdge(g, bh, n, 1, 0);
    }
  }

  /** Writing a key changes neither links nor colours, so the red-black properties stay. */
  lemma SetKeyKeeps<H>(g: Graph<H>, N: set<H>, sub: map<H, set<H>>, bh: map<H, nat>, n: H, k: int)
    requires n in g.slots && RedBlack(g, N, sub, bh)
    ensures RedBlack(SetKey(g, n, k), N, sub, bh)
  {
    var g' := SetKey(g, n, k);
    forall m | m in N
      ensures LinkedAt(g', N, sub, m)
      ensures RedEdgeAt(g', m, g.nil, g.nil)
      ensures BlackEdge(g', bh, m, 0, 0) && BlackEdge(g', bh, m, 1, 0)
    {
      assert LinkedAt(g, N, sub, m);
      assert RedEdgeAt(g, m, g.nil, g.nil);
      assert BlackAt(g, bh, m, g.nil, 0);
      assert BlackEdge(g, bh, m, 0, 0) && BlackEdge(g, bh, m, 1, 0);
    }
  }

  /** A rotation moves links only: every handle keeps its key and its colour. */
  lemma RotateSameKeys<H>(g: Graph<H>, N: set<H>, sub: map<H, set<H>>, x: H, dir: Dir)
    requires Rotatable(g, N, sub, x, dir)
    ensures CanRotate(g, x, dir) && SameKeys(g, Rotate(g, x, dir))
    ensures forall m :: m in g.slots ==> Red(Rotate(g, x, dir), m) == Red(g, m)
  {
    RotateShape(g, N, sub, x, dir);
    RotatedKeepsKeys(g, Rotate(g, x, dir), N, sub, x, dir);
  }

  /** Every handle of M holds the same key in g and g'. */
  ghost predicate KeysAgree<H>(g: Graph<H>, g': Graph<H>, M: set<H>) {
    forall m :: m in M ==> m in g.slots && m in g'.slots && g'.slots[m].key == g.slots[m].key
  }

  /** A new node z holding k adds one occurrence of k and leaves every other count alone. */
  lemma AddNodeOccurrences<H>(g: Graph<H>, g': Graph<H>, N: set<H>, z: H, k: int)
    requires N <= g.slots.Keys && z !in N && z in g'.slots && g'.slots[z].key == k
    requires KeysAgree(g, g', N)
    ensures N + {z} <= g'.slots.Keys
    ensures forall j :: Occurrences(g', N + {z}, j) == Occurrences(g, N, j) + (if j == k then 1 else 0)
    ensures Keys(g', N + {z}) == Keys(g, N) + {k}
  {
    forall j ensures Occurrences(g', N + {z}, j) == Occurrences(g, N, j) + (if j == k then 1 else 0) {
      AddNodeCount(g, g', N, z, k, j);
    }
    AddNodeKeys(g, g', N, z, k);
  }

  lemma AddNodeCount<H>(g: Graph<H>, g': Graph<H>, N: set<H>, z: H, k: int, j: int)
    requires N <= g.slots.Keys && z !in N && z in g'.slots && g'.slots[z].key == k
    requires KeysAgree(g, g', N)
    ensures N + {z} <= g'.slots.Keys
    ensures Occurrences(g', N + {z}, j) == Occurrences(g, N, j) + (if j == k then 1 else 0)
  {
    var S := set n | n in N && g.slots[n].key == j;
    var S' := set n | n in N + {z} && g'.slots[n].key == j;
    if j == k {
      assert S' == S + {z};
    } else {
      assert S' == S;
    }
  }

  lemma AddNodeKeys<H>(g: Graph<H>, g': Graph<H>, N: set<H>, z: H, k: int)
    requires N <= g.slots.Keys && z !in N && z in g'.slots && g'.slots[z].key == k
    requires KeysAgree(g, g', N)
    ensures N + {z} <= g'.slots.Keys
    ensures Keys(g', N + {z}) == Keys(g, N) + {k}
  {
    forall j | j in Keys(g', N + {z}) ensures j in Keys(g, N) + {k} {
      var n :| n in N + {z} && g'.slots[n].key == j;
      if n != z {
        assert j == g.slots[n].key;
      }
    }
    forall j | j in Keys(g, N) + {k} ensures j in Keys(g', N + {z}) {
      if j != k {
        var n :| n in N && g.slots[n].key == j;
        assert g'.slots[n].key == j;
      } else {
        assert g'.slots[z].key == j;
      }
    }
  }

  /**
   * Deletion's bookkeeping: node y leaves the tree and, when y is not z, its
   * key moves into z. The net effect is one occurrence fewer of z's key and
   * no other change to the multiset of keys.
   */
  lemma RemoveNodeOccurrences<H>(g: Graph<H>, g': Graph<H>, N: set<H>, y: H, z: H)
    requires N <= g.slots.Keys && y in N && z in N
    requires KeysAgree(g, g', N - {y, z})
    requires y != z ==> z in g'.slots && g'.slots[z].key == g.slots[y].key
    ensures N - {y} <= g'.slots.Keys
    ensures forall j :: Occurrences(g', N - {y}, j) + (if j == g.slots[z].key then 1 else 0) == Occurrences(g, N, j)
  {
    forall j ensures Occurrences(g', N - {y}, j) + (if j == g.slots[z].key then 1 else 0) == Occurrences(g, N, j) {
      RemoveNodeCount(g, g', N, y, z, j);
    }
  }

  lemma RemoveNodeCount<H>(g: Graph<H>, g': Graph<H>, N: set<H>, y: H, z: H, j: int)
    requires N <= g.slots.Keys && y in N && z in N
    requires KeysAgree(g, g', N - {y, z})
    requires y != z ==> z in g'.slots && g'.slots[z].key == g.slots[y].key
    ensures N - {y} <= g'.slots.Keys
    ensures Occurrences(g', N - {y}, j) + (if j == g.slots[z].key then 1 else 0) == Occurrences(g, N, j)
  {
    var S := set n | n in N && g.slots[n].key == j;
    var S' := set n | n in N - {y} && g'.slots[n].key == j;
    var S1 := S - {y};
    assert |S1| == |S| - (if y in S then 1 else 0);
    if y == z {
      assert S' == S1;
    } else {
      MovedKeyCount(g, g', N, y, z, j);
    }
  }

  lemma MovedKeyCount<H>(g: Graph<H>, g': Graph<H>, N: set<H>, y: H, z: H, j: int)
    requires N <= g.slots.Keys && y in N && z in N && y != z
    requires KeysAgree(g, g', N - {y, z})
    requires z in g'.slots && g'.slots[z].key == g.slots[y].key
    ensures N - {y} <= g'.slots.Keys
    ensures Occurrences(g', N - {y}, j) + (if j == g.slots[z].key then 1 else 0) == Occurrences(g, N, j)
  {
    var S := set n | n in N && g.slots[n].key == j;
    var S' := set n | n in N - {y} && g'.slots[n].key == j;
    var S1 := S - {y};
    assert |S1| == |S| - (if y in S then 1 else 0);
    var T := S1 - {z};
    assert |T| == |S1| - (if z in S1 then 1 else 0);
    assert z !in T;
    if g.slots[y].key == j {
      assert S' == T + {z};
    } else {
      assert S' == T;
    }
  }

  /** Keys that agree across an unchanged-keys step and then on M still agree on any part of M. */
  lemma KeysAgreeAfter<H>(g: Graph<H>, g1: Graph<H>, g': Graph<H>, M: set<H>, M': set<H>)
    requires SameKeys(g, g1) && KeysAgree(g1, g', M) && M' <= M
    ensures KeysAgree(g, g', M')
  {
  }

  /** The slots left once y's entry is freed: still the tree's nodes and the sentinel. */
  lemma FreedSlot<H>(slots: set<H>, N: set<H>, nil: H, y: H)
    requires slots == N + {nil} && y in N && y != nil
    ensures slots - {y} == (N - {y}) + {nil}
  {
  }
}
