/**
 * The node storage shared by every variant of the red-black tree, seen as a
 * value: a map from handles to node records, the root handle and the
 * sentinel handle. A handle is a slab index in the arena variant and a node
 * address in the direct-ownership variant; the functions below mirror, write
 * by write, what the source does through either kind of handle, so both
 * storage back-ends are proved against the same definitions.
 */
module RbGraph {

  /** A direction: 0 is the left child, 1 the right child; `Flip(d)` is the source's `d ^ 1`. */
  type Dir = d: nat | d < 2

  function Flip(d: Dir): (e: Dir)
    ensures e != d
  {
    1 - d
  }

  datatype Option<T> = None | Some(value: T)

  /** One node: parent link, the two child links (`children[0]`, `children[1]`), key and colour. */
  datatype Rec<H> = Rec(parent: H, left: H, right: H, key: int, red: bool)
  {
    function Child(d: Dir): (c: H) {
      if d == 0 then left else right
    }

    function WithChild(d: Dir, c: H): (r: Rec<H>)
      ensures r.Child(d) == c && r.Child(Flip(d)) == Child(Flip(d))
      ensures r.parent == parent && r.key == key && r.red == red
    {
      if d == 0 then this.(left := c) else this.(right := c)
    }
  }

  /** A fresh node as `Node::new` builds it: every link at the sentinel, coloured black. */
  function NewRec<H>(key: int, nil: H): (r: Rec<H>)
    ensures r.parent == nil && r.left == nil && r.right == nil
    ensures r.key == key && !r.red
  {
    Rec(nil, nil, nil, key, false)
  }

  datatype Graph<H> = Graph(slots: map<H, Rec<H>>, root: H, nil: H)

  /** The colour read through a handle; a handle with no node reads as black. */
  predicate Red<H>(g: Graph<H>, n: H) {
    n in g.slots && g.slots[n].red
  }

  function SetRed<H>(g: Graph<H>, n: H, b: bool): (g': Graph<H>)
    requires n in g.slots
    ensures g'.slots.Keys == g.slots.Keys && g'.root == g.root && g'.nil == g.nil
    ensures g'.slots[n] == g.slots[n].(red := b)
    ensures forall m :: m in g.slots && m != n ==> g'.slots[m] == g.slots[m]
  {
    g.(slots := g.slots[n := g.slots[n].(red := b)])
  }

  function SetParent<H>(g: Graph<H>, n: H, p: H): (g': Graph<H>)
    requires n in g.slots
    ensures g'.slots.Keys == g.slots.Keys && g'.root == g.root && g'.nil == g.nil
    ensures g'.slots[n] == g.slots[n].(parent := p)
    ensures forall m :: m in g.slots && m != n ==> g'.slots[m] == g.slots[m]
  {
    g.(slots := g.slots[n := g.slots[n].(parent := p)])
  }

  function SetChild<H>(g: Graph<H>, n: H, d: Dir, c: H): (g': Graph<H>)
    requires n in g.slots
    ensures g'.slots.Keys == g.slots.Keys && g'.root == g.root && g'.nil == g.nil
    ensures g'.slots[n] == g.slots[n].WithChild(d, c)
    ensures forall m :: m in g.slots && m != n ==> g'.slots[m] == g.slots[m]
  {
    g.(slots := g.slots[n := g.slots[n].WithChild(d, c)])
  }

  function SetKey<H>(g: Graph<H>, n: H, k: int): (g': Graph<H>)
    requires n in g.slots
    ensures g'.slots.Keys == g.slots.Keys && g'.root == g.root && g'.nil == g.nil
    ensures g'.slots[n] == g.slots[n].(key := k)
    ensures forall m :: m in g.slots && m != n ==> g'.slots[m] == g.slots[m]
  {
    g.(slots := g.slots[n := g.slots[n].(key := k)])
  }

  /** The handles `rotate(x, dir)` reads: x, y = x's `dir ^ 1` child, y's `dir` child and x's parent. */
  predicate CanRotate<H>(g: Graph<H>, x: H, dir: Dir) {
    && x in g.slots
    && g.slots[x].Child(Flip(dir)) in g.slots
    && g.slots[g.slots[x].Child(Flip(dir))].Child(dir) in g.slots
    && g.slots[x].parent in g.slots
  }

  /**
   * `rotate(x, dir)`: x's `dir ^ 1` child y takes x's place, y's `dir` child
   * moves under x, and x becomes y's `dir` child. The writes are those of
   * the source, in its order, so that aliasing behaves as it does there.
   */
  function Rotate<H>(g: Graph<H>, x: H, dir: Dir): (g': Graph<H>)
    requires CanRotate(g, x, dir)
    ensures g'.slots.Keys == g.slots.Keys && g'.nil == g.nil
  {
    var y := g.slots[x].Child(Flip(dir));
    var g1 := SetChild(g, x, Flip(dir), g.slots[y].Child(dir));
    var yc := g1.slots[y].Child(dir);
    var g2 := if yc != g.nil then SetParent(g1, yc, x) else g1;
    var g3 := SetParent(g2, y, g2.slots[x].parent);
    var xp := g3.slots[x].parent;
    var g4 := if xp == g.nil then g3.(root := y)
              else SetChild(g3, xp, if g3.slots[xp].left == x then 0 else 1, y);
    var g5 := SetChild(g4, y, dir, x);
    SetParent(g5, x, y)
  }

  /** The rotation as a chain of single writes, for code that performs them one at a time. */
  lemma RotateSteps<H>(g: Graph<H>, x: H, dir: Dir, g1: Graph<H>, g2: Graph<H>, g3: Graph<H>, g4: Graph<H>, g5: Graph<H>)
    requires CanRotate(g, x, dir)
    requires var y := g.slots[x].Child(Flip(dir));
             && g1 == SetChild(g, x, Flip(dir), g.slots[y].Child(dir))
             && g2 == (if g1.slots[y].Child(dir) != g.nil then SetParent(g1, g1.slots[y].Child(dir), x) else g1)
             && g3 == SetParent(g2, y, g2.slots[x].parent)
             && g4 == (if g3.slots[x].parent == g.nil then g3.(root := y)
                       else SetChild(g3, g3.slots[x].parent, if g3.slots[g3.slots[x].parent].left == x then 0 else 1, y))
             && g5 == SetChild(g4, y, dir, x)
    ensures x in g5.slots && Rotate(g, x, dir) == SetParent(g5, x, g.slots[x].Child(Flip(dir)))
  {
  }
}
