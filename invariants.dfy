/**
 * The invariants of the tree, stated over the storage graph and three ghost
 * annotations: N, the handles of the nodes in the tree; sub, the set of
 * nodes of each node's subtree; bh, each node's black height (the number of
 * black nodes below it on any path down to the sentinel, itself excluded).
 * Every invariant is local (a node and its two children), which is what
 * lets rotations and recolourings be checked one node at a time.
 */
module RbInvariants {
  import opened RbGraph

  /** Node n is properly linked: its children are tree nodes or the sentinel and point back to it,
      its subtree is itself plus its children's disjoint subtrees, and a non-root node hangs
      from a tree node that has it as a child. */
  ghost predicate LinkedAt<H>(g: Graph<H>, N: set<H>, sub: map<H, set<H>>, n: H) {
    && n in g.slots && n in sub
    && var r := g.slots[n];
    && (r.left == g.nil || r.left in N) && (r.right == g.nil || r.right in N)
    && r.left in g.slots && r.right in g.slots && r.left in sub && r.right in sub
    && (r.left != g.nil ==> g.slots[r.left].parent == n)
    && (r.right != g.nil ==> g.slots[r.right].parent == n)
    && sub[n] == {n} + sub[r.left] + sub[r.right]
    && n !in sub[r.left] && n !in sub[r.right] && sub[r.left] !! sub[r.right]
    && sub[n] <= N
    && (n != g.root ==>
          && r.parent in N && r.parent in g.slots
          && (g.slots[r.parent].left == n || g.slots[r.parent].right == n))
  }

  /** The nodes N form one tree hanging from the root, closed at the sentinel. */
  ghost predicate Linked<H>(g: Graph<H>, N: set<H>, sub: map<H, set<H>>) {
    && g.nil in g.slots && g.nil !in N && N <= g.slots.Keys
    && g.nil in sub && sub[g.nil] == {} && N <= sub.Keys
    && (g.root == g.nil || g.root in N) && g.root in sub && sub[g.root] == N
    && (g.root != g.nil ==> g.slots[g.root].parent == g.nil)
    && forall n {:trigger LinkedAt(g, N, sub, n)} :: n in N ==> LinkedAt(g, N, sub, n)
  }

  /** Descent order at n: keys in the left subtree are at most n's key, keys in the right at least. */
  ghost predicate OrderedAt<H>(g: Graph<H>, sub: map<H, set<H>>, n: H) {
    && n in g.slots
    && var r := g.slots[n];
    && r.left in sub && r.right in sub
    && (forall m :: m in sub[r.left] ==> m in g.slots && g.slots[m].key <= r.key)
    && (forall m :: m in sub[r.right] ==> m in g.slots && r.key <= g.slots[m].key)
  }

  ghost predicate Ordered<H>(g: Graph<H>, N: set<H>, sub: map<H, set<H>>) {
    forall n {:trigger OrderedAt(g, sub, n)} :: n in N ==> OrderedAt(g, sub, n)
  }

  /** The contribution of a child to its parent's black height: 1 if black (the sentinel is black). */
  function Weight<H>(g: Graph<H>, c: H): (w: nat)
    ensures w <= 1
  {
    if Red(g, c) then 0 else 1
  }

  /** The black-height equation on the edge from n to its d child, short by `extra`. */
  ghost predicate BlackEdge<H>(g: Graph<H>, bh: map<H, nat>, n: H, d: Dir, extra: nat) {
    && n in g.slots && n in bh && g.slots[n].Child(d) in bh
    && bh[n] == bh[g.slots[n].Child(d)] + Weight(g, g.slots[n].Child(d)) + extra
  }

  function Extra<H(==)>(n: H, d: Dir, dp: H, dd: Dir): (e: nat) {
    if n == dp && d == dd then 1 else 0
  }

  /** Uniform black height, except that the edge from dp on side dd may be one black short
      (the extra black that deletion's repair carries). dp = sentinel means no exception. */
  ghost predicate BlackEdges<H>(g: Graph<H>, N: set<H>, bh: map<H, nat>, dp: H, dd: Dir) {
    && g.nil in bh && bh[g.nil] == 0
    && forall n {:trigger BlackAt(g, bh, n, dp, dd)} :: n in N ==> BlackAt(g, bh, n, dp, dd)
  }

  /** Both edges below n obey the black-height equation, with the exception BlackEdges allows. */
  ghost predicate BlackAt<H>(g: Graph<H>, bh: map<H, nat>, n: H, dp: H, dd: Dir) {
    BlackEdge(g, bh, n, 0, Extra(n, 0, dp, dd)) && BlackEdge(g, bh, n, 1, Extra(n, 1, dp, dd))
  }

  /** No red node has a red child, except for an edge leaving `up` or entering `down`. */
  ghost predicate RedEdgeAt<H>(g: Graph<H>, n: H, up: H, down: H) {
    && n in g.slots
    && (Red(g, n) && Red(g, g.slots[n].left) ==> n == up || g.slots[n].left == down)
    && (Red(g, n) && Red(g, g.slots[n].right) ==> n == up || g.slots[n].right == down)
  }

  ghost predicate RedEdges<H>(g: Graph<H>, N: set<H>, up: H, down: H) {
    forall n {:trigger RedEdgeAt(g, n, up, down)} :: n in N ==> RedEdgeAt(g, n, up, down)
  }

  /** The four red-black properties over a linked tree. */
  ghost predicate RedBlack<H>(g: Graph<H>, N: set<H>, sub: map<H, set<H>>, bh: map<H, nat>) {
    && Linked(g, N, sub)
    && !Red(g, g.nil)
    && !Red(g, g.root)
    && RedEdges(g, N, g.nil, g.nil)
    && BlackEdges(g, N, bh, g.nil, 0)
  }

  /** The keys held by the tree. */
  ghost function Keys<H>(g: Graph<H>, N: set<H>): (ks: set<int>)
    requires N <= g.slots.Keys
  {
    set n | n in N :: g.slots[n].key
  }

  /** A node strictly inside n's subtree hangs from a node of that subtree. */
  lemma {:induction false} ParentInSubtree<H>(g: Graph<H>, N: set<H>, sub: map<H, set<H>>, n: H, m: H)
    requires Linked(g, N, sub) && n in N && m in sub[n] && m != n
    ensures m in N && g.slots[m].parent in sub[n]
    decreases sub[n]
  {
    assert LinkedAt(g, N, sub, n);
    var r := g.slots[n];
    if m in sub[r.left] {
      assert r.left != g.nil;
      assert LinkedAt(g, N, sub, r.left);
      if m != r.left {
        ParentInSubtree(g, N, sub, r.left, m);
      }
    } else {
      assert m in sub[r.right];
      assert r.right != g.nil;
      assert LinkedAt(g, N, sub, r.right);
      if m != r.right {
        ParentInSubtree(g, N, sub, r.right, m);
      }
    }
  }

  /** A tree node's parent link: the sentinel exactly at the root, else a tree node that has it as a child. */
  lemma ParentOf<H>(g: Graph<H>, N: set<H>, sub: map<H, set<H>>, x: H)
    requires Linked(g, N, sub) && x in N
    ensures g.slots[x].parent in g.slots
    ensures g.slots[x].parent == g.nil <==> x == g.root
    ensures x != g.root ==>
              && g.slots[x].parent in N
              && (g.slots[g.slots[x].parent].left == x || g.slots[g.slots[x].parent].right == x)
  {
    assert LinkedAt(g, N, sub, x);
  }

  /** Only the root's subtree contains the root. */
  lemma RootOnlyInOwnSubtree<H>(g: Graph<H>, N: set<H>, sub: map<H, set<H>>, n: H)
    requires Linked(g, N, sub) && n in N && n != g.root
    ensures g.root !in sub[n]
  {
    assert LinkedAt(g, N, sub, n);
    if g.root in sub[n] {
      ParentInSubtree(g, N, sub, n, g.root);
    }
  }

  /** A subtree lies inside the subtree of every node it is found in. */
  lemma {:induction false} SubtreeNested<H>(g: Graph<H>, N: set<H>, sub: map<H, set<H>>, n: H, m: H)
    requires Linked(g, N, sub) && n in N && m in sub[n]
    ensures m in N && sub[m] <= sub[n]
    decreases sub[n]
  {
    assert LinkedAt(g, N, sub, n);
    var r := g.slots[n];
    if m != n {
      if m in sub[r.left] {
        assert LinkedAt(g, N, sub, r.left);
        SubtreeNested(g, N, sub, r.left, m);
      } else {
        assert LinkedAt(g, N, sub, r.right);
        SubtreeNested(g, N, sub, r.right, m);
      }
    }
  }

  /** A non-root node's subtree is strictly inside its parent's. */
  lemma SubtreeBelowParent<H>(g: Graph<H>, N: set<H>, sub: map<H, set<H>>, n: H)
    requires Linked(g, N, sub) && n in N && n != g.root
    ensures g.slots[n].parent in N && sub[n] < sub[g.slots[n].parent] <= N
  {
    assert LinkedAt(g, N, sub, n);
    var p := g.slots[n].parent;
    assert LinkedAt(g, N, sub, p);
  }

  /** The measure the repair loops decrease: the nodes outside the current subtree. */
  lemma OutsideShrinks<H>(N: set<H>, A: set<H>, B: set<H>)
    requires A < B <= N
    ensures |N - B| < |N - A|
  {
    var e :| e in B && e !in A;
    var C, D := N - A, N - B;
    assert C == D + (C - D) && D * (C - D) == {};
    assert e in C - D;
  }

  /** Outside the subtree of any node but the root lies at least the root. */
  lemma OutsideRoot<H>(g: Graph<H>, N: set<H>, sub: map<H, set<H>>, x: H)
    requires Linked(g, N, sub) && (x == g.nil || x in N) && x != g.root
    ensures |N - sub[x]| > 0
  {
    if x != g.nil {
      RootOnlyInOwnSubtree(g, N, sub, x);
    }
    assert g.root in N - sub[x];
  }

  /** g' differs from g at most in colours. */
  ghost predicate SameLinks<H>(g: Graph<H>, g': Graph<H>) {
    && g'.slots.Keys == g.slots.Keys && g'.root == g.root && g'.nil == g.nil
    && forall m :: m in g.slots ==> g'.slots[m] == g.slots[m].(red := g'.slots[m].red)
  }

  lemma SetRedSameLinks<H>(g: Graph<H>, n: H, b: bool)
    requires n in g.slots
    ensures SameLinks(g, SetRed(g, n, b))
  {
  }

  /** Recolouring changes neither the shape of the tree nor its order. */
  lemma SameLinksKeep<H>(g: Graph<H>, g': Graph<H>, N: set<H>, sub: map<H, set<H>>)
    requires SameLinks(g, g')
    ensures Linked(g, N, sub) ==> Linked(g', N, sub)
    ensures Ordered(g, N, sub) ==> Ordered(g', N, sub)
  {
    if Linked(g, N, sub) {
      forall n | n in N ensures LinkedAt(g', N, sub, n) {
        assert LinkedAt(g, N, sub, n);
      }
    }
    if Ordered(g, N, sub) {
      forall n | n in N ensures OrderedAt(g', sub, n) {
        assert OrderedAt(g, sub, n);
      }
    }
  }

  /** SameLinks composes. */
  lemma SameLinksTrans<H>(g1: Graph<H>, g2: Graph<H>, g3: Graph<H>)
    requires SameLinks(g1, g2) && SameLinks(g2, g3)
    ensures SameLinks(g1, g3)
  {
  }

  /** How many nodes of N hold key k: the tree seen as a multiset of keys. */
  ghost function Occurrences<H>(g: Graph<H>, N: set<H>, k: int): (c: nat)
    requires N <= g.slots.Keys
  {
    |set n | n in N && g.slots[n].key == k|
  }

  /** g' holds the same keys as g at every handle. */
  ghost predicate SameKeys<H>(g: Graph<H>, g': Graph<H>) {
    && g'.slots.Keys == g.slots.Keys
    && forall m :: m in g.slots ==> g'.slots[m].key == g.slots[m].key
  }

  /** Graphs that agree on every key agree on every count and on the set of keys. */
  lemma SameKeysOccurrences<H>(g: Graph<H>, g': Graph<H>, N: set<H>)
    requires SameKeys(g, g') && N <= g.slots.Keys
    ensures forall k :: Occurrences(g', N, k) == Occurrences(g, N, k)
    ensures Keys(g', N) == Keys(g, N)
  {
    forall k ensures Occurrences(g', N, k) == Occurrences(g, N, k) {
      assert (set n | n in N && g'.slots[n].key == k) == (set n | n in N && g.slots[n].key == k);
    }
  }

  /** Recolouring keeps every key. */
  lemma SameLinksSameKeys<H>(g: Graph<H>, g': Graph<H>)
    requires SameLinks(g, g')
    ensures SameKeys(g, g')
  {
    forall m | m in g.slots ensures g'.slots[m].key == g.slots[m].key {
      assert g'.slots[m] == g.slots[m].(red := g'.slots[m].red);
    }
  }

  /** SameKeys composes. */
  lemma SameKeysTrans<H>(g1: Graph<H>, g2: Graph<H>, g3: Graph<H>)
    requires SameKeys(g1, g2) && SameKeys(g2, g3)
    ensures SameKeys(g1, g3)
  {
  }
}
