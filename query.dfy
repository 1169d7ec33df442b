/**
 * The read-only walks over the tree: the leftmost node below x (what
 * `tree_minimum` finds) and the search descent (what `search_` finds), as
 * reference definitions over the storage graph, with what they mean for the
 * keys held by the tree.
 */
module RbQuery {
  import opened RbGraph
  import opened RbInvariants

  /** The node reached from x by following left links down to the sentinel. */
  ghost function Leftmost<H>(g: Graph<H>, N: set<H>, sub: map<H, set<H>>, x: H): (m: H)
    requires Linked(g, N, sub) && x in N
    decreases sub[x]
  {
    assert LinkedAt(g, N, sub, x);
    var l := g.slots[x].left;
    if l == g.nil then x else Leftmost(g, N, sub, l)
  }

  /** The leftmost node lies in x's subtree, has no left child, and under the descent order holds its least key. */
  lemma {:induction false} LeftmostMinimum<H>(g: Graph<H>, N: set<H>, sub: map<H, set<H>>, x: H)
    requires Linked(g, N, sub) && x in N
    ensures var m := Leftmost(g, N, sub, x);
            && m in sub[x] && m in N && g.slots[m].left == g.nil
            && (Ordered(g, N, sub) ==> forall n :: n in sub[x] ==> n in N && g.slots[m].key <= g.slots[n].key)
    decreases sub[x]
  {
    assert LinkedAt(g, N, sub, x);
    var l := g.slots[x].left;
    if l != g.nil {
      LeftmostMinimum(g, N, sub, l);
      var m := Leftmost(g, N, sub, l);
      if Ordered(g, N, sub) {
        assert OrderedAt(g, sub, x);
        forall n | n in sub[x] ensures g.slots[m].key <= g.slots[n].key {
          if n !in sub[l] {
            assert g.slots[m].key <= g.slots[x].key;
          }
        }
      }
    } else {
      if Ordered(g, N, sub) {
        assert OrderedAt(g, sub, x);
      }
    }
  }

  /**
   * The search descent from n: stop at a node holding k, go right when the
   * node's key is below k and left otherwise, give up at the sentinel.
   */
  ghost function Descend<H>(g: Graph<H>, N: set<H>, sub: map<H, set<H>>, n: H, k: int): (r: Option<H>)
    requires Linked(g, N, sub) && (n == g.nil || n in N)
    decreases sub[n]
  {
    if n == g.nil then None
    else
      assert LinkedAt(g, N, sub, n);
      var r := g.slots[n];
      if r.key == k then Some(n)
      else Descend(g, N, sub, r.Child(if r.key < k then 1 else 0), k)
  }

  /** A node the descent finds lies below n and holds k. */
  lemma {:induction false} DescendSound<H>(g: Graph<H>, N: set<H>, sub: map<H, set<H>>, n: H, k: int)
    requires Linked(g, N, sub) && (n == g.nil || n in N)
    ensures Descend(g, N, sub, n, k).Some? ==>
              var i := Descend(g, N, sub, n, k).value; i in sub[n] && i in N && g.slots[i].key == k
    decreases sub[n]
  {
    if n != g.nil {
      assert LinkedAt(g, N, sub, n);
      var r := g.slots[n];
      if r.key != k {
        DescendSound(g, N, sub, r.Child(if r.key < k then 1 else 0), k);
      }
    }
  }

  /** Under the descent order, the descent from n finds k whenever n's subtree holds k. */
  lemma {:induction false} DescendComplete<H>(g: Graph<H>, N: set<H>, sub: map<H, set<H>>, n: H, k: int, m: H)
    requires Linked(g, N, sub) && Ordered(g, N, sub) && (n == g.nil || n in N)
    requires m in sub[n] && m in N && g.slots[m].key == k
    ensures Descend(g, N, sub, n, k).Some?
    decreases sub[n]
  {
    assert n != g.nil;
    assert LinkedAt(g, N, sub, n) && OrderedAt(g, sub, n);
    var r := g.slots[n];
    if r.key != k {
      if r.key < k {
        assert m !in sub[r.left];
        DescendComplete(g, N, sub, r.right, k, m);
      } else {
        assert m !in sub[r.right];
        DescendComplete(g, N, sub, r.left, k, m);
      }
    }
  }

  /** From the root: the search finds k only if the tree holds it, and under the descent order always if it does. */
  lemma SearchFinds<H>(g: Graph<H>, N: set<H>, sub: map<H, set<H>>, k: int)
    requires Linked(g, N, sub)
    ensures Descend(g, N, sub, g.root, k).Some? ==> Occurrences(g, N, k) > 0
    ensures Ordered(g, N, sub) && Occurrences(g, N, k) > 0 ==> Descend(g, N, sub, g.root, k).Some?
  {
    DescendSound(g, N, sub, g.root, k);
    if Descend(g, N, sub, g.root, k).Some? {
      var i := Descend(g, N, sub, g.root, k).value;
      var S := set n | n in N && g.slots[n].key == k;
      assert i in S;
      assert |S| > 0;
    }
    if Ordered(g, N, sub) && Occurrences(g, N, k) > 0 {
      var m :| m in (set n | n in N && g.slots[n].key == k);
      DescendComplete(g, N, sub, g.root, k, m);
    }
  }

  /**
   * The climb of the successor search from x0 (which has no right child):
   * x0 lies in x's subtree and, under the descent order, holds its greatest key.
   */
  ghost predicate Climbing<H>(g: Graph<H>, N: set<H>, sub: map<H, set<H>>, x0: H, x: H)
    requires Linked(g, N, sub)
  {
    && x in N && x0 in N && x0 in sub[x]
    && (Ordered(g, N, sub) ==> forall n :: n in sub[x] ==> n in N && g.slots[n].key <= g.slots[x0].key)
  }

  lemma ClimbStart<H>(g: Graph<H>, N: set<H>, sub: map<H, set<H>>, x0: H)
    requires Linked(g, N, sub) && x0 in N && g.slots[x0].right == g.nil
    ensures Climbing(g, N, sub, x0, x0)
  {
    assert LinkedAt(g, N, sub, x0);
    if Ordered(g, N, sub) {
      assert OrderedAt(g, sub, x0);
    }
  }

  /** Climbing from a right child to its parent keeps x0 the greatest key of the larger subtree. */
  lemma ClimbStep<H>(g: Graph<H>, N: set<H>, sub: map<H, set<H>>, x0: H, x: H)
    requires Linked(g, N, sub) && Climbing(g, N, sub, x0, x) && x != g.root
    requires g.slots[x].parent in g.slots && g.slots[g.slots[x].parent].right == x
    ensures Climbing(g, N, sub, x0, g.slots[x].parent)
    ensures |N - sub[g.slots[x].parent]| < |N - sub[x]|
  {
    var y := g.slots[x].parent;
    SubtreeBelowParent(g, N, sub, x);
    assert LinkedAt(g, N, sub, y);
    OutsideShrinks(N, sub[x], sub[y]);
    if Ordered(g, N, sub) {
      assert OrderedAt(g, sub, y);
    }
  }

  /**
   * Where the climb stops: at the root, x0 holds the greatest key of the tree;
   * at a left child x of y, x0 lies below y's left child, with the greatest
   * key there, and y's key is at least x0's.
   */
  lemma ClimbEnd<H>(g: Graph<H>, N: set<H>, sub: map<H, set<H>>, x0: H, x: H)
    requires Linked(g, N, sub) && Climbing(g, N, sub, x0, x)
    requires x != g.root ==> g.slots[x].parent in g.slots && g.slots[g.slots[x].parent].right != x
    ensures x == g.root ==> Ordered(g, N, sub) ==> forall n :: n in N ==> g.slots[n].key <= g.slots[x0].key
    ensures x != g.root ==>
              var y := g.slots[x].parent;
              && y in N && g.slots[y].left == x && x0 in sub[g.slots[y].left]
              && (Ordered(g, N, sub) ==>
                    && g.slots[x0].key <= g.slots[y].key
                    && forall n :: n in sub[g.slots[y].left] ==> n in N && g.slots[n].key <= g.slots[x0].key)
  {
    if x != g.root {
      assert LinkedAt(g, N, sub, x);
      var y := g.slots[x].parent;
      assert LinkedAt(g, N, sub, y);
      if Ordered(g, N, sub) {
        assert OrderedAt(g, sub, y);
      }
    }
  }
}
