# Bottom-up splay tree in Dafny

A model of the Go splay tree in `splaytree.go`: nodes with `parent`, `left`
and `right` pointers and a value, and a tree holding a `root` pointer. The
rotations `rotateLeft` and `rotateRight` (with `correctParent`) and
`transplant` do the restructuring, except in two places that rewrite pointers
directly: `Insert` hangs the new node on its parent, and the two-children
branch of `Remove` splices the largest node of the left subtree into the
root's place. `splay` moves a node to the root by zig, zig-zig and zig-zag
steps. The public operations are `Insert`, `Has`, `Remove` and `Traverse`.

The model has two layers.

- **Imperative layer** (`splaytree.dfy`, class `SplayTrees.SplayTree`). The
  heap of `splayNode` objects is an arena `nodes: map<int, NodeRec>` indexed
  by node identity, with `Nil` (-1) as the null pointer. `root` is the root
  pointer. `nextId` hands out identities to new nodes. Every Go function is a
  method that reads and rewrites these records as the Go code does. The
  loops of `splay`, `Insert`, `find` and `max` are `while` loops with
  invariants, and `traverse` is a recursive method.
- **Shape layer** (`trees.dfy` to `traversal.dfy`). A ghost field `shape`
  holds the tree that `root` reaches. `Valid()` ties the records to it:
  - `Linked`: every child pointer names the root of the matching subtree,
    and that child's parent pointer points back;
  - `Unique`: no identity occurs twice;
  - `Ordered`: in-order values never decrease.

  Each method's contract says what it does to `shape`, through pure
  functions: `RotL`/`RotR`, `Splay`, `InsertSpec`, `FindPath`, `RemoveSpec`
  and `Calls`. Lemmas then prove what those functions promise: the in-order
  sequence is kept, the accessed node becomes the root, and exactly one entry
  is added or removed.

`Comparable` values are integers with their natural order. `CompareTo(v) > 0`
is `x > v`, and `== 0` is `x == v`. In the replay of the repository's test,
"A" to "G" are 1 to 7.

The search-tree order kept by the code is non-strict. Equal values go right
on insertion. A left rotation can then put a node into the left subtree of a
node with an equal value (`Operations.EqualValueLeft`). So the form "every
value in the left subtree is smaller" does not hold; the model uses
"in-order values never decrease".

## Model

| member | source | states |
|---|---|---|
| SplayTrees.SplayTree.constructor | splaytree.go:18-20 | `NewSplayTree`: an empty tree (`root` is nil) that is valid |
| SplayTrees.SplayTree.CorrectParent | splaytree.go:22-32 | if `t` has no parent, `t` becomes the root and no record changes; otherwise the parent's child slot that held `n` now holds `t`, and nothing else changes |
| SplayTrees.SplayTree.RotateLeft | splaytree.go:34-48 | with `n.right` present, the tree becomes the old one with `n`'s subtree rotated left (`RotL`); the records stay valid with all back-pointers consistent; returns the old `n.right`, which becomes the root if `n` had no parent |
| SplayTrees.SplayTree.RotateRight | splaytree.go:50-64 | the mirror image of `RotateLeft` (`RotR`) |
| SplayTrees.RotLInstall | splaytree.go:34-48 | the pointer writes of `rotateLeft` followed by `correctParent` realise the tree with the subtree at `n` rotated; the result keeps unique identities, BST order and the root pointer |
| SplayTrees.RotRInstall | splaytree.go:50-64 | the same for `rotateRight` |
| Rotations.RotLFacts | splaytree.go:34-48 | a left rotation keeps the in-order sequence, the node set and identity uniqueness; the old right child becomes the subtree root |
| Rotations.RotRFacts | splaytree.go:50-64 | the same for a right rotation; the old left child becomes the subtree root |
| Rotations.ZigStepFacts | splaytree.go:79-101 | a zig-zig or zig-zag step brings the grandchild to the top of the grandparent's subtree and keeps its in-order sequence, nodes and uniqueness |
| Rotations.SplayFacts | splaytree.go:66-103 | the splayed node ends at the root; in-order sequence, node set and uniqueness are unchanged |
| SplaySteps.StepKeepsSplay | splaytree.go:79-101 | after one zig-zig or zig-zag step the node sits at its grandparent's old position, and splaying from there gives the same final tree |
| SplaySteps.ZigKeepsSplay | splaytree.go:69-77 | when the parent is the root, one rotation at the root (right for a left child, left for a right child) finishes the splay |
| SplaySteps.ZigZigMid | splaytree.go:85-92 | two rotations in the same direction, first at the grandparent and then at the parent, make up one zig-zig step |
| SplaySteps.ZigZagMid | splaytree.go:93-100 | a rotation at the parent followed by the opposite rotation at the grandparent makes up one zig-zag step |
| SplayTrees.SplayTree.Splay | splaytree.go:66-103 | afterwards `root == n` and `n` has no parent; the tree is exactly `Splay(old shape, path to n)`, is still valid, and the set of records is unchanged |
| SplayTrees.SplayTree.Insert | splaytree.go:105-139 | the tree becomes `InsertSpec(old shape, new id, v)`; it is still valid; exactly one record is added; the new node, holding `v`, is the root |
| SplayTrees.SplayTree.AttachNode | splaytree.go:114-137 | on a non-empty tree a new node holding `v` hangs in the empty slot where the insertion descent ends; the tree is still valid and the node's path is that descent |
| SplayTrees.SplayTree.InsertionPoint | splaytree.go:114-126 | the descent loop ends at the last node of the insertion descent, on the side it would take next, and that child pointer is nil |
| Search.DescentSplits | splaytree.go:117-125 | the insertion descent leaves every value at most `v` before the new slot and every greater value after it, so equal values go right |
| Search.AttachFacts | splaytree.go:128-137 | attaching the new node inserts exactly its entry into the in-order sequence at the descent's slot; order and uniqueness are kept and the node set grows by the new identity |
| Operations.AttachReaches | splaytree.go:128-138 | the attached node is found at the end of the insertion descent, which is the path `splay` then follows |
| Operations.InsertSpecFacts | splaytree.go:105-139 | after `Insert` the new node, holding `v`, is the root; order and uniqueness are kept; the node set grows by exactly the new identity; the in-order sequence is the old one with `(id, v)` after all values `<= v` and before all greater ones |
| Operations.EqualValueLeft | splaytree.go:117-123 | inserting an equal value puts it right of the first, and the splay rotates the first into the new root's left subtree |
| SplayTrees.SplayTree.Find | splaytree.go:141-155 | `find` changes nothing; it returns nil exactly when no node holds `v`, and otherwise the node that the lookup descent reaches, which holds `v` |
| Search.FindPathSound | splaytree.go:141-155 | a path found by the lookup descent leads to a node holding `v` |
| Search.FindPathComplete | splaytree.go:141-155 | on an ordered tree the lookup descent fails exactly when no node holds `v` |
| SplayTrees.SplayTree.Has | splaytree.go:211-220 | returns whether `v` is present; if it is, the found node is splayed to the root (which then holds `v`); if not, records, root and shape are unchanged; the in-order contents never change |
| SplayTrees.SplayTree.Transplant | splaytree.go:157-168 | the slot that held `n`, in `n`'s parent or at the root, now holds `nn`; `nn` (if not nil) points back at `n`'s parent; nothing else changes |
| SplayTrees.TransplantLinked | splaytree.go:157-168 | when `nn` is one of `n`'s subtrees, the records after `transplant` realise the tree with `n`'s subtree replaced by `nn`'s |
| SplayTrees.SplayTree.Max | splaytree.go:170-177 | returns the rightmost node of `n`'s subtree, whose right pointer is nil and whose value is the largest in that subtree |
| Search.RightmostMax | splaytree.go:170-177 | the rightmost node of an ordered tree holds its largest value |
| Search.CutMaxInOrder | splaytree.go:190-195 | unlinking the rightmost node from its parent drops that node and its left subtree, which sit at the end of the in-order sequence |
| SplayTrees.SplayTree.Remove | splaytree.go:179-209 | the outcome is `RemoveSpec`'s: not found, removed, or the nil dereference of the two-children branch; if it completes, the tree is `RemoveSpec`'s, still valid, with the same records; when `v` is absent nothing changes |
| SplayTrees.SplayTree.RemoveTwoChildren | splaytree.go:187-202 | after splaying `n`, the branch panics exactly when the root's left child has no right child; otherwise the rightmost node of the left subtree becomes the root with the old root's two subtrees (the left one with that node cut off), and the tree is still valid |
| SplayTrees.SplayTree.SpliceRoot | splaytree.go:190-201 | the splice on a splayed root with two children: it panics exactly when the left child has no right child; otherwise it leaves a valid tree rooted at the rightmost node of the left subtree |
| SplayTrees.RemoveRootLinked | splaytree.go:190-201 | the writes at lines 191-201 realise the spliced tree, which is ordered and has unique identities and a subset of the old nodes |
| SplayTrees.RemoveShape | splaytree.go:183-202 | `RemoveSpec` branch by branch: a node with one empty side is replaced by its other subtree; with two children the splayed tree is spliced, or the branch panics when the left child has no right child |
| Operations.RemoveAbsent | splaytree.go:179-182 | `Remove` reports not found exactly when no node holds `v`, and then the tree is unchanged |
| Operations.RemoveFacts | splaytree.go:179-209 | every completed `Remove` leaves an ordered tree with unique identities, without the found node; the in-order sequence loses the found entry and `Lost(t, v)` (the replacing node's old left subtree, empty outside the two-children branch) and otherwise keeps its order |
| Operations.SpliceChild | splaytree.go:183-186 | replacing a node that has an empty side by its other subtree removes exactly that node's entry from the in-order sequence and keeps order and uniqueness |
| Operations.SpliceMax | splaytree.go:190-201 | on the splayed tree the splice keeps order and uniqueness; the in-order sequence loses the root's entry and the replacing node's old left subtree |
| Operations.SplayKeepsSides | splaytree.go:188 | after the splay at line 188 the found node is the root, and a node with two children still has two children |
| SplayTrees.SplayTree.Traverse | splaytree.go:222-224 | the callback calls made are `Calls(shape, 0, f)`: a prefix of the in-order (value, depth) listing; the walk completes exactly when the calls are the whole listing and every one answered true |
| SplayTrees.SplayTree.TraverseFrom | splaytree.go:226-235 | `traverse` returns `Walk` and makes exactly the calls `Calls`: left subtree at depth + 1, then the node, then the right subtree, stopping at the first false |
| Traversal.CallsFacts | splaytree.go:226-235 | the calls are a prefix of the listing; the walk succeeds iff it made every call of the listing and all answered true; otherwise the last call answered false and all earlier ones true |
| Traversal.WalkTrue | splaytree.go:226-235 | a callback that always answers true makes the walk complete and is given exactly the listing, one call per node in in-order |
| Traversal.ListingValues | splaytree.go:226-235 | the listing reports the values in in-order, one entry per node |
| Findings.PanicExample | splaytree.go:190-197 | inserting 1, 3, 2 gives root 2 with children 1 and 3; `Remove(2)` as written dereferences nil; the corrected remove leaves 1 with right child 3 |
| Findings.LossExample | splaytree.go:196 | on the tree built by inserting 2, 3, 5, 1, 4, `Remove(4)` as written completes but also drops value 2; the corrected remove keeps it |
| Findings.LossBuild | splaytree.go:105-139 | the five insertions build the tree used by `LossExample` |
| Findings.RemoveFixedFacts | splaytree.go:179-209 | the corrected remove never panics, reports not found exactly when `v` is absent, and otherwise removes exactly the found entry, keeping order and uniqueness |
| Findings.RemoveAgrees | splaytree.go:187-202 | where the branch as written neither panics nor loses a subtree, it gives the same tree as the corrected one |
| Findings.DeleteMax | splaytree.go:190-196 | the corrected unlinking of the rightmost node hands its left subtree to its parent, so only that node leaves the in-order sequence |
| Scenarios.Step01 | splaytree_test.go:47 | `Insert(A)` on the empty tree gives a single root; listing `(A,0)` |
| Scenarios.Step02 | splaytree_test.go:48 | `Insert(B)` gives the stated tree and listing |
| Scenarios.Step03 | splaytree_test.go:49 | `Insert(C)` gives the stated tree and listing |
| Scenarios.Step04 | splaytree_test.go:50 | `Insert(D)` gives the stated tree and listing |
| Scenarios.Step05 | splaytree_test.go:51-56 | `Insert(E)` gives depths A4 B3 C2 D1 E0 |
| Scenarios.Step06 | splaytree_test.go:58-62 | `Has(A)` finds A and splays it: A0 B2 C3 D1 E2 |
| Scenarios.Step07 | splaytree_test.go:64-68 | `Has(C)`: A1 B2 C0 D1 E2 |
| Scenarios.Step08 | splaytree_test.go:70-74 | `Insert(F)`: A2 B3 C1 D3 E2 F0 |
| Scenarios.Step09 | splaytree_test.go:76-80 | `Insert(G)`: A3 B4 C2 D4 E3 F1 G0 |
| Scenarios.Step10 | splaytree_test.go:82-86 | `Has(D)`: A2 B3 C1 D0 E2 F1 G2 |
| Scenarios.Step11 | splaytree_test.go:88-92 | `Has(B)`: A1 B0 C2 D1 E3 F2 G3 |
| Scenarios.Step12 | splaytree_test.go:94-98 | `Remove(D)`, the two-children branch: A2 B1 C0 E2 F1 G2 |
| Scenarios.Step13 | splaytree_test.go:100-104 | `Remove(B)`: A1 C0 E2 F1 G2 |
| Scenarios.Step14 | splaytree_test.go:106-110 | `Remove(E)`: A1 C0 F1 G2 |
| Scenarios.Step15 | splaytree_test.go:112-116 | `Remove(F)`: A1 C0 G1 |
| Scenarios.Step16 | splaytree_test.go:118-122 | `Insert(B)`: A1 B0 C1 G2 |
| Scenarios.Step17 | splaytree_test.go:124-128 | `Remove(A)`: B0 C1 G2 |
| Scenarios.Step18 | splaytree_test.go:130-134 | `Insert(A)`: A0 B1 C2 G3 |
| Scenarios.Step19 | splaytree_test.go:136-140 | `Has(G)`: A1 B3 C2 G0 |
| Scenarios.Step20 | splaytree_test.go:142-146 | `Remove(G)`: A0 B2 C1 |
| Scenarios.Step21 | splaytree_test.go:148-155 | `Has(G)` finds nothing (G is absent); A0 B2 C1 |
| Scenarios.Step22 | splaytree_test.go:157-164 | `Remove(G)` reports not found and leaves A0 B2 C1 |
| Scenarios.Step23 | splaytree_test.go:166-170 | `Remove(C)`: A0 B1 |

## Left out

- `Comparable`, `CompareTo` and its fallback for values of another type: values are `int` with their natural order.
- The effects of the `Traverse` callback: it is a pure function `(int, nat) -> bool`, and the traversal returns the sequence of calls it made. The test's `executeTreeTraverse` is modelled by `Listing`, the calls of a callback that always answers true (`Traversal.WalkTrue`).
- Allocation and garbage collection: a new node takes the identity `nextId`. Records of removed nodes stay in the arena, unreachable from `root`.
- Concurrency: the tree is used by one caller at a time, as in the source.
- The amortized logarithmic cost of splaying.
- SplayTrees.SplayTree.Remove: the state left after the nil dereference is not stated. The Go program panics at that point, and the model reports the `Panicked` outcome instead.
- SplayTrees.SplayTree.Traverse: the boolean that `traverse` returns is dropped, as `Traverse` drops it in the source. `TraverseFrom` states it.

## Findings

| source | as written | input that shows it | evidently intended | confidence | as-written member | corrected member |
|---|---|---|---|---|---|---|
| splaytree.go:191-197 | when the rightmost node `s` of the splayed root's left subtree is that left child itself, line 192 empties the root's left link; line 196 then copies nil into `s.left`, and line 197 dereferences it | insert 1, 3, 2, then `Remove(2)` | `s` keeps its own left subtree and takes the root's place with the root's right subtree | high (not executed) | Findings.PanicExample | Findings.RemoveFixedFacts |
| splaytree.go:191-196 | `s`'s own left subtree is overwritten at line 196 without being re-hung, so its values leave the tree | insert 2, 3, 5, 1, 4, then `Remove(4)` (value 2 is lost) | `s`'s left subtree takes `s`'s place under `s`'s parent before `s` moves to the root | high (not executed) | Findings.LossExample | Findings.RemoveFixedFacts |
