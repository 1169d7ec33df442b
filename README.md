# Red-black trees over an arena and over heap nodes

This project models three red-black tree implementations of an ordered key set:

- `SlabRedBlack` (src/slab.rs). Nodes are entries of a slab and refer to each other by index.
- `PointerRedBlack` (src/pointer.rs). Every node is its own heap object and links are addresses.
- The earlier prototype `RedBlack` (slab-red-black/src/lib.rs). It has the same slab layout and `rotate`, an insert without rebalancing, and `search`.

In every variant, absent links point to one shared sentinel node. The sentinel is black and is also the root of an empty tree.

## How the model is built

Both production variants are proved against one value-level description of the storage: `RbGraph.Graph`. It holds a map from handle to record (parent, left, right, key, colour), the root and the sentinel.

- Every write the source performs is a function on that graph: `SetRed`, `SetParent`, `SetChild`, `SetKey`. `RbGraph.Rotate` performs the writes of `rotate` in source order, so aliasing between the sentinel and real nodes behaves as in the source.
- `RbSlab.SlabRedBlack` keeps the slab as a `map<nat, Rec<nat>>` field with the allocator's bookkeeping. `RbPointer.PointerRedBlack` keeps real `PNode` objects, with a ghost `Repr`. Each method that performs one group of writes (a rotation, a link, a recolouring, a splice) states the new graph in terms of the old one, so one set of lemmas serves both variants. The composite operations (insert, the two repair loops, the splice with its repair, delete) state instead the invariants they keep, the key multiset they leave and, where the order matters, the descent order.
- The tree invariants are local. Each one concerns a node and its two children, annotated by ghost data: N (the nodes in the tree), sub (each node's subtree) and bh (each node's black height).
  - `Linked`: one tree hanging from the root, with parent links pointing back.
  - `Ordered`: the descent order. Keys in a left subtree are at most the node's key, and keys in a right subtree are at least it.
  - `RedBlack`: linked, a black root, no red node with a red child, and equal black heights.
- The key content of the tree is the multiset `Occurrences(g, N, k)`. Insert adds exactly one occurrence of its key. Delete removes exactly one occurrence when the search finds the key and changes nothing otherwise.

Behaviour that the model follows as the code is written:

- **Successor.** `tree_successor` calls `tree_minimum(x)` when x has a right child (src/slab.rs:72, src/pointer.rs:79). That returns the leftmost node of x's own subtree, not of its right subtree, so `delete` of a node with two children splices out a node that may hold a smaller key. The model keeps this behaviour. `TreeSuccessor` states what the code returns. Delete is proved to keep the red-black properties and the key multiset, and to keep the descent order when the node it finds has at most one child. Insert, both repair loops and the splice keep the descent order whenever the tree had it.
- **Ties.** Equal keys go right on insert in src/slab.rs and src/pointer.rs. In the prototype they go left (slab-red-black/src/lib.rs:79). `RbInsert.InsertDescent` is the insertion descent with the tie side as a parameter; each variant's descent loop returns exactly its result. Search stops at an equal key, goes right when the node's key is below the search key, and goes left otherwise.
- **Sentinel parent.** The splice in `delete` writes x's parent link even when x is the sentinel (src/slab.rs:298, src/pointer.rs:290). The repair loop relies on that link. The invariants never constrain the sentinel's parent except there.
- **Pointer delete.** src/pointer.rs exchanges the keys of z and y with `mem::swap` before the repair loop (src/pointer.rs:299-301). The spliced node y is never freed: it stays allocated in `Repr`, outside the tree. The arena variant frees y's slab entry after the repair and moves y's key into z (src/slab.rs:315-318). The model states both orders.
- **Prototype.** The prototype's `red_black_fixup` only blackens the root (slab-red-black/src/lib.rs:92-95). Its invariant is therefore a linked search tree with a black root, not a red-black tree.
- **Prototype colour check.** The prototype's `verify_children_color` has two defects that the model does not reproduce:
  - It queues the left child where it means the right one (slab-red-black/src/lib.rs:144).
  - It compares child links with `NULL` rather than with the sentinel index (slab-red-black/src/lib.rs:132-142).

  `RbValidator` instead models the checks of src/slab.rs and src/pointer.rs, whose `verify_black_height` is the same as the prototype's (slab-red-black/src/lib.rs:110-121). Both classes' `Valid()` includes `RedBlack` of their graph, so these lemmas apply to either variant's tree directly.

## Model

| member | source | states |
|---|---|---|
| RbGraph.Rotate | src/slab.rs:38-59 | `rotate(x, dir)` as the source's writes in order: the graph keeps its slots and sentinel |
| RbRotate.RotateLinked | src/slab.rs:38-59 | rotation keeps the tree linked, with x taking the promoted node's old subtree side |
| RbRotate.RotateOrdered | src/slab.rs:38-59 | rotation keeps the descent order |
| RbRotate.RotateInverse | slab-red-black/src/lib.rs:231-279 | `rotate(x, dir)` followed by `rotate(y, dir ^ 1)` at the promoted node restores every record and the root |
| RbRotate.RotateDistinct | src/pointer.rs:47-66 | the handles a rotation touches are distinct, and x hangs on exactly one side of its parent, or is the root |
| RbRotate.RotateShape | src/pointer.rs:47-66 | the records after a rotation: x, the promoted node, the moved subtree and x's parent change as described, and all else stays |
| RbStorage.RotateSameKeys | src/slab.rs:38-59 | a rotation moves no key and no colour |
| RbQuery.LeftmostMinimum | src/slab.rs:61-68 | the node `tree_minimum` reaches is in x's subtree, has no left child and, under the descent order, holds the subtree's least key |
| RbQuery.SearchFinds | src/slab.rs:166-177 | the search descent finds k only if the tree holds k, and under the descent order always when it does |
| RbQuery.DescendSound | src/pointer.rs:163-174 | a node the descent finds lies below its start and holds the key |
| RbQuery.DescendComplete | src/pointer.rs:163-174 | under the descent order, the descent finds any key held in the subtree |
| RbQuery.ClimbEnd | src/slab.rs:74-79 | where the successor's climb stops: x's key is the tree's greatest, or the ancestor reached holds a key at least x's, above a left subtree whose greatest key is x's |
| RbInsert.InsertSide | src/slab.rs:329-333 | the side insertion takes at a node: below goes left, above goes right, and an equal key goes to the tie side |
| RbInsert.InsertDescent | src/slab.rs:327-335 | the descent ends at a node of the start's subtree whose link on the side the key calls for is free |
| RbInsert.InsertDescentFits | src/slab.rs:327-335 | every node passed admits the key on the side taken, so the key fits where the descent ends |
| RbInsert.InsertDescentFitsRoot | src/pointer.rs:315-319 | from the root of a non-empty tree the descent ends at a free side where the key fits |
| RbInsert.InsertDescentFrame | slab-red-black/src/lib.rs:75-87 | the descent reads only the records of tree nodes, so allocating and colouring the new entry first does not change it |
| RbInsert.AttachLinked | src/slab.rs:337-347 | attaching a fresh leaf at a free slot keeps the tree linked |
| RbInsert.AttachOrdered | src/slab.rs:337-347 | attaching where the key fits keeps the descent order |
| RbInsert.AttachRed | src/slab.rs:349 | a new red leaf in a red-black tree sets up the repair loop's invariant (the only red-red edge enters z) |
| RbInsert.InsertRedUncle | src/slab.rs:94-101 | red uncle: recolouring moves the red-red edge two levels up and keeps black heights |
| RbInsert.InsertInner | src/slab.rs:103-112 | black uncle, inner child: the rotation turns the case into an outer one with the same direction |
| RbInsert.InsertOuter | src/slab.rs:113-115 | black uncle, outer child: recolour and rotation end the loop with no red-red edge |
| RbInsert.InsertDone | src/slab.rs:119-120 | with a black parent, blackening the root gives a red-black tree |
| RbDelete.SpliceLinked | src/slab.rs:289-305 | splicing out a node with at most one child leaves the other nodes linked |
| RbDelete.SpliceOrdered | src/slab.rs:289-305 | splicing out a node with at most one child keeps the descent order |
| RbDelete.SpliceRed | src/slab.rs:307-309 | splicing out a red node keeps a red-black tree |
| RbDelete.SpliceBlack | src/slab.rs:307-309 | splicing out a black node leaves its replacement one black short: the repair loop's invariant |
| RbDeleteFixup.DeleteRedSibling | src/slab.rs:129-136 | red sibling: recolour and rotation keep the invariant and give x a black sibling |
| RbDeleteFixup.DeleteBlackNephews | src/slab.rs:137-141 | black sibling with black children: the shortage moves up to the parent |
| RbDeleteFixup.DeleteFarBlack | src/slab.rs:143-153 | red near nephew: the rotation leaves a black sibling with a red far child |
| RbDeleteFixup.DeleteFarRed | src/slab.rs:154-158 | red far nephew: recolour and rotation restore the missing black and the loop ends at the root |
| RbDeleteFixup.DeleteDone | src/slab.rs:162-163 | with x red or the root, blackening x gives a red-black tree |
| RbStorage.AddNodeOccurrences | src/slab.rs:321-352 | a new node adds exactly one occurrence of its key and leaves every other count alone |
| RbStorage.RemoveNodeOccurrences | src/slab.rs:315-318 | y leaving the tree and its key moving into z removes exactly one occurrence of z's old key |
| RbStorage.AddSlotKeeps | src/slab.rs:322 | a freshly allocated entry that nothing points to keeps every invariant |
| RbStorage.RemoveSlotKeeps | src/slab.rs:315 | freeing an entry outside the tree keeps a red-black tree red-black |
| RbValidator.CheckBlackHeightIs | src/slab.rs:188-202 | on a red-black tree `verify_black_height` does not fail and returns the node's black height |
| RbValidator.CheckChildrenColourHolds | src/slab.rs:204-237 | on a red-black tree the colour check finds no red node with a red child |
| RbValidator.RedBlackIsValid | src/slab.rs:180-242 | every red-black tree passes `is_valid` |
| RbValidator.CheckBlackHeightNat | src/slab.rs:188-202 | a height `verify_black_height` returns without panicking is never negative |
| RbValidator.ChecksBelow | src/slab.rs:188-237 | where both checks pass at a node, they pass at every node below it |
| RbValidator.ChecksLocal | src/slab.rs:188-237 | where both checks pass at a node, its two edges obey the black-height equation for the heights the check computes, and it is not a red node with a red child |
| RbValidator.IsValidRedBlack | src/slab.rs:180-242 | every linked tree with a black sentinel that passes `is_valid` is red-black, with the black heights the check computes |
| RbValidator.ValidatorExact | src/pointer.rs:177-235 | over a linked tree with a black sentinel, `is_valid` (the same checks in both variants) passes exactly when some black heights make the tree red-black |
| RbSlab.SlabRedBlack.constructor | src/slab.rs:249-264 | an empty valid tree: the sentinel is entry 0 and is the root; the allocator has handed out one entry (`len` 1) and has no freed entries |
| RbSlab.SlabRedBlack.SlabInsert | src/slab.rs:322 | allocation reuses the most recently freed entry, which leaves the free list, and keeps `len`; with no freed entry it hands out index `len` and `len` grows by one; only that entry changes |
| RbSlab.SlabRedBlack.SlabRemove | src/slab.rs:315 | freeing returns the record, removes the entry and puts it on the free list |
| RbSlab.SlabRedBlack.Rotate | src/slab.rs:38-59 | the new slab is `RbGraph.Rotate` of the old one |
| RbSlab.SlabRedBlack.TreeMinimum | src/slab.rs:61-68 | returns the leftmost node below x, the least key of x's subtree under the descent order |
| RbSlab.SlabRedBlack.TreeSuccessor | src/slab.rs:70-80 | with a right child: `tree_minimum(x)` as written; otherwise the first ancestor above a left subtree holding x, or the sentinel when x holds the greatest key |
| RbSlab.SlabRedBlack.SearchNode | src/slab.rs:166-177 | the index the descent reaches, holding key; none only if the tree lacks it |
| RbSlab.SlabRedBlack.Search | src/slab.rs:266-271 | the key if found; found exactly when the descent finds it, and under the order exactly when the tree holds it |
| RbSlab.SlabRedBlack.InsertFixup | src/slab.rs:82-121 | from the repair invariant: a red-black tree with the same keys at every entry, ordered if it was |
| RbSlab.SlabRedBlack.RecolourUp | src/slab.rs:94-101 | the red-red edge moves up to the grandparent, and the loop measure decreases |
| RbSlab.SlabRedBlack.RotateInner | src/slab.rs:103-112 | the old parent becomes an outer red child of z, and the invariant holds |
| RbSlab.SlabRedBlack.RotateOuter | src/slab.rs:113-115 | z's parent is now black and the invariant holds |
| RbSlab.SlabRedBlack.FindParent | src/slab.rs:324-335 | exactly where `InsertDescent` with ties right ends (the last node and its free side, where the key fits), or the sentinel exactly when the tree is empty |
| RbSlab.SlabRedBlack.Link | src/slab.rs:337-349 | the new slab is the attachment of z below y on the side its key calls for, with z red |
| RbSlab.SlabRedBlack.AttachNew | src/slab.rs:321-349 | the new entry is the one the allocator hands out, with the allocator's new `len` and free list, and holds the key; every other entry keeps its key; one more occurrence of the key; the repair invariant holds; ordered if the tree was |
| RbSlab.SlabRedBlack.LinkNew | src/slab.rs:337-349 | attaching the fresh entry sets up the repair invariant and adds its key once; every entry keeps its key |
| RbSlab.SlabRedBlack.Insert | src/slab.rs:321-352 | valid after; the new node holds the key in the most recently freed entry, which leaves the free list, or else in entry `len`, and `len` grows by one; every other entry keeps its key; exactly one more occurrence of the key; the key set gains it; ordered if it was |
| RbSlab.SlabRedBlack.RedSibling | src/slab.rs:129-136 | the delete invariant holds at x, whose sibling is now black; ordered if it was |
| RbSlab.SlabRedBlack.BlackNephews | src/slab.rs:137-141 | the invariant holds at the parent, and the measure decreases; ordered if it was |
| RbSlab.SlabRedBlack.FarBlack | src/slab.rs:143-153 | the sibling is black with a red far child; ordered if it was |
| RbSlab.SlabRedBlack.FarRed | src/slab.rs:154-158 | the invariant holds at the root with nothing short; ordered if it was |
| RbSlab.SlabRedBlack.BlackSibling | src/slab.rs:137-159 | one pass with a black sibling keeps the invariant and decreases the measure; ordered if it was |
| RbSlab.SlabRedBlack.FixupPass | src/slab.rs:125-159 | one loop pass keeps the invariant and decreases the measure; ordered if it was |
| RbSlab.SlabRedBlack.DeleteFixup | src/slab.rs:123-164 | from the delete invariant: a red-black tree with the same keys at every entry, ordered if it was |
| RbSlab.SlabRedBlack.Unlink | src/slab.rs:289-305 | the new slab is the splice of y; the tree is red-black if y was red, else one black short at x; ordered if it was |
| RbSlab.SlabRedBlack.Release | src/slab.rs:311-318 | y's entry is freed and y's key moves into z; the tree stays red-black, and ordered if it was and y is z |
| RbSlab.SlabRedBlack.SpliceOut | src/slab.rs:281-309 | one node leaves the tree, z itself when z has at most one child; the tree stays red-black with the same keys at every entry, ordered if it was |
| RbSlab.SlabRedBlack.Delete | src/slab.rs:273-319 | valid after; the graph and the allocator unchanged when the search fails; otherwise exactly one occurrence of the key fewer, the spliced entry y is removed from the slab and pushed on the free list with `len` kept, y is the node found when that node has at most one child, y's key moves into the node found when they differ, and every other entry keeps its key; ordered if it was and the node found has at most one child |
| RbSlab.InsertFresh | src/slab.rs:321-352 | an insert while no entry has been freed puts the key in entry `len`, grows `len` by one and leaves every other entry's key as it was |
| RbSlab.BuildRotationStart | src/slab.rs:375-380 | the first three inserts into a new tree take entries 1, 2 and 3, holding 5, 1 and 8 |
| RbSlab.BuildRotationTree | src/slab.rs:375-396 | five inserts into a new tree take entries 1 to 5 in order: entry 1 holds 5, entry 2 holds 1, entry 3 holds 8, entry 4 holds 7, entry 5 holds 9 |
| RbPointer.PNode.constructor | src/pointer.rs:21-28 | a black node whose links are all the given sentinel |
| RbPointer.PointerRedBlack.constructor | src/pointer.rs:242-254 | an empty valid tree: a fresh sentinel that is the root |
| RbPointer.PointerRedBlack.NewNode | src/pointer.rs:14-18 | a fresh node linked only to the sentinel; no existing record changes |
| RbPointer.PointerRedBlack.Rotate | src/pointer.rs:47-66 | the new graph is `RbGraph.Rotate` of the old one |
| RbPointer.PointerRedBlack.TreeMinimum | src/pointer.rs:68-75 | returns the leftmost node below x, the least key of x's subtree under the descent order |
| RbPointer.PointerRedBlack.TreeSuccessor | src/pointer.rs:77-87 | as the arena variant's: `tree_minimum(x)` when x has a right child, else the climb's result |
| RbPointer.PointerRedBlack.SearchNode | src/pointer.rs:163-174 | the node the descent reaches, holding key; none only if the tree lacks it |
| RbPointer.PointerRedBlack.Search | src/pointer.rs:256-263 | the key if found; under the order, found exactly when the tree holds it |
| RbPointer.PointerRedBlack.InsertFixup | src/pointer.rs:89-118 | from the repair invariant: a red-black tree with the same keys at every node, ordered if it was |
| RbPointer.PointerRedBlack.InsertPass | src/pointer.rs:90-113 | one pass keeps the invariant; either z's parent turns black or the measure decreases |
| RbPointer.PointerRedBlack.RecolourUp | src/pointer.rs:99-103 | the red-red edge moves up to the grandparent, and the measure decreases |
| RbPointer.PointerRedBlack.RotateInner | src/pointer.rs:106-109 | the old parent becomes an outer red child of z, and the invariant holds |
| RbPointer.PointerRedBlack.RotateOuter | src/pointer.rs:110-112 | z's parent is now black and the invariant holds |
| RbPointer.PointerRedBlack.FindParent | src/pointer.rs:312-319 | exactly where `InsertDescent` with ties right ends (the last node and its free side, where the key fits), or the sentinel exactly when the tree is empty |
| RbPointer.PointerRedBlack.Link | src/pointer.rs:321-329 | the new graph is the attachment of z below y, with z red |
| RbPointer.PointerRedBlack.AttachNew | src/pointer.rs:310-329 | one more occurrence of the key; the repair invariant holds; ordered if the tree was |
| RbPointer.PointerRedBlack.LinkNew | src/pointer.rs:321-329 | attaching the fresh node sets up the repair invariant and adds its key once |
| RbPointer.PointerRedBlack.Insert | src/pointer.rs:308-332 | valid after; exactly one more occurrence of the key; ordered if it was |
| RbPointer.PointerRedBlack.RedSibling | src/pointer.rs:128-133 | the delete invariant holds at x, whose sibling is now black; ordered if it was |
| RbPointer.PointerRedBlack.BlackNephews | src/pointer.rs:136-138 | the invariant holds at the parent, and the measure decreases; ordered if it was |
| RbPointer.PointerRedBlack.FarBlack | src/pointer.rs:142-149 | the sibling is black with a red far child; ordered if it was |
| RbPointer.PointerRedBlack.FarRed | src/pointer.rs:151-155 | the invariant holds at the root with nothing short; ordered if it was |
| RbPointer.PointerRedBlack.BlackSibling | src/pointer.rs:134-156 | one pass with a black sibling keeps the invariant and decreases the measure; ordered if it was |
| RbPointer.PointerRedBlack.FixupPass | src/pointer.rs:121-157 | one loop pass keeps the invariant and decreases the measure; ordered if it was |
| RbPointer.PointerRedBlack.DeleteFixup | src/pointer.rs:120-161 | from the delete invariant: a red-black tree with the same keys at every node, ordered if it was |
| RbPointer.PointerRedBlack.Relink | src/pointer.rs:288-297 | the new graph is the splice of y |
| RbPointer.PointerRedBlack.Unlink | src/pointer.rs:281-297 | splice of y: red-black if y was red, else one black short at x; ordered if it was |
| RbPointer.PointerRedBlack.SwapKeys | src/pointer.rs:299-301 | z and y exchange keys and nothing else changes |
| RbPointer.PointerRedBlack.Detach | src/pointer.rs:281-301 | y leaves the tree keeping its colour; z holds y's old key; every other key stays; ordered if it was and y is z |
| RbPointer.PointerRedBlack.SpliceOut | src/pointer.rs:274-304 | one node leaves the tree, z itself when z has at most one child, and the tree stays red-black; z holds y's key; every other key stays; ordered if it was and y is z |
| RbPointer.PointerRedBlack.Delete | src/pointer.rs:265-306 | valid after, with no node freed; unchanged when the search fails; otherwise exactly one occurrence of the key fewer; ordered if it was and the node found has at most one child |
| RbPrototype.LeafStep | slab-red-black/src/lib.rs:64-90 | attaching a fresh leaf where its key fits keeps a linked ordered tree with a black root and adds one occurrence |
| RbPrototype.FreshRedKeeps | slab-red-black/src/lib.rs:65-76 | a fresh entry turned red keeps the tree linked and leaves the insertion descent where it was |
| RbPrototype.BuildScenario | slab-red-black/src/lib.rs:190-229 | inserting 5, 1, 8, 7 and 9 into a new tree gives exactly the slab the scenario asserts |
| RbPrototype.RotateLeftScenario | slab-red-black/src/lib.rs:193-253 | on the tree of keys 5, 1, 8, 7, 9, `rotate(1, 0)` gives the slab the scenario expects |
| RbPrototype.RotateBackScenario | slab-red-black/src/lib.rs:255-279 | `rotate(3, 1)` then restores the original slab exactly |
| RbPrototype.ProtoRedBlack.constructor | slab-red-black/src/lib.rs:33-43 | entry 0 is the sentinel (default key, links `NULL`, black) and the root |
| RbPrototype.ProtoRedBlack.SlabInsert | slab-red-black/src/lib.rs:65 | the next unused index; only that entry is added |
| RbPrototype.ProtoRedBlack.Rotate | slab-red-black/src/lib.rs:45-62 | the new slab is `RbGraph.Rotate` of the old one |
| RbPrototype.ProtoRedBlack.FindLeaf | slab-red-black/src/lib.rs:77-87 | exactly where `InsertDescent` with ties left ends: the last node and its free side, where the key fits |
| RbPrototype.ProtoRedBlack.RedBlackFixup | slab-red-black/src/lib.rs:92-95 | blackening the already black root changes nothing |
| RbPrototype.ProtoRedBlack.InsertRoot | slab-red-black/src/lib.rs:67-73 | into an empty tree the new entry becomes the black root |
| RbPrototype.ProtoRedBlack.AttachLeaf | slab-red-black/src/lib.rs:81-84 | the only writes are the parent's child link and the new entry's parent; the tree stays linked and ordered |
| RbPrototype.ProtoRedBlack.InsertLeaf | slab-red-black/src/lib.rs:75-87 | the new red entry hangs at the side of the node where the descent on the tree before the insert ends; only that link and the new entry are written; one more occurrence of the key |
| RbPrototype.ProtoRedBlack.Insert | slab-red-black/src/lib.rs:64-90 | valid after; the new entry is the next index; into an empty tree it is the black root, otherwise the exact new slab is the old one with the entry hung red at the side where the descent (ties left) ends; one more occurrence of the key |
| RbPrototype.ProtoRedBlack.Search | slab-red-black/src/lib.rs:97-108 | returns the key exactly when the descent finds it; under the order, exactly when the tree holds it |

## Left out

- The slab crate's internals are not part of this model. Only the behaviour the tree relies on is modelled: `insert` reuses the most recently freed entry or appends, `remove` frees an entry, and indices stay stable.
- Keys are `int` rather than a generic `PartialOrd` type. An incomparable pair, such as floating-point NaN, is not modelled.
- The sentinel's key is created from uninitialised memory (`MaybeUninit`, src/slab.rs:257, src/pointer.rs:32). The model gives it key 0. No proof reads the sentinel's key.
- Raw-pointer safety, `Box` allocation and the absence of deallocation are represented only by the ghost set `Repr` of allocated nodes. The model checks neither use-after-free nor leaks.
- RbSlab.BuildRotationTree: states which entry holds which key, not the parent and child links the rotation test also asserts; the links that the same five inserts produce are stated for the prototype by RbPrototype.BuildScenario.
- RbSlab.SlabRedBlack.Delete: the descent order is promised only when the node found has at most one child. Otherwise, as written, the successor can pick a node with a smaller key, whose key then lands in z, so the order can break. Red-black properties and key counts are promised in every case.
- RbPointer.PointerRedBlack.Delete: the descent order is promised only when the node found has at most one child, for the same successor reason.
- RbSlab.SlabRedBlack.TreeSuccessor: with a right child it states the code's result (the leftmost node of x's own subtree), not a true in-order successor.
- RbPointer.PointerRedBlack.TreeSuccessor: same as the arena variant's.
- The check `if y == self.nil_sentinel { return; }` in the arena `delete` (src/slab.rs:311-313) is not modelled as a branch. y is always a tree node there, so the model proves it cannot be the sentinel.
- The breadth-first traversal of `verify_children_color` is stated as a recursive predicate over the same nodes. The `break` at the sentinel is unreachable because only real children are queued.
- The prototype's `is_valid` (slab-red-black/src/lib.rs:123-162) is not modelled. Its insert keeps no colour invariant, so the validator promises nothing about it. Its queueing and `NULL` comparison defects are described above.
- The prototype insert's colour is not constrained beyond a black root, because its repair step does nothing else.
- The source's unit-test drivers, their pseudo-random key generator and all printing are not part of this model. The one rotation scenario of slab-red-black/src/lib.rs is stated as lemmas.
- src/redblack.rs, the trait both variants implement, is not part of this model. Its operations are the class methods above.
- Concurrency is not modelled. Every structure is single-threaded.
