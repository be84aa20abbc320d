/**
 * Rotations and the bottom-up splay of a tree shape, as pure functions.
 * `SplayTree.RotateLeft`, `SplayTree.RotateRight` and `SplayTree.Splay`
 * are proved to rewire the arena exactly as these functions reshape the
 * ghost tree.
 */
module Rotations {
  import opened Trees

  /** rotateLeft at the root of `s`: the right child rises, the old root
      becomes its left child and takes over the right child's old left
      subtree as its own right subtree. */
  function RotL(s: Tree): Tree
    requires s.Node? && s.right.Node?
  {
    var t := s.right;
    Node(Node(s.left, s.id, s.value, t.left), t.id, t.value, t.right)
  }

  /** rotateRight at the root of `s`: the mirror image of `RotL`. */
  function RotR(s: Tree): Tree
    requires s.Node? && s.left.Node?
  {
    var t := s.left;
    Node(t.left, t.id, t.value, Node(t.right, s.id, s.value, s.right))
  }

  /** Zig: the node below the root on side `d` is rotated up to the root. */
  function Zig(p: Tree, d: Dir): Tree
    requires p.Node? && Child(p, d).Node?
  {
    match d
    case Left => RotR(p)
    case Right => RotL(p)
  }

  /** One zig-zig or zig-zag step on the subtree `g` of the grandparent:
      the parent hangs on side `d1` of `g`, the splayed node on side `d2` of
      the parent.  Zig-zig rotates at the grandparent and then at the parent
      (both in the same direction); zig-zag rotates at the parent and then at
      the grandparent (in opposite directions). */
  function ZigStep(g: Tree, d1: Dir, d2: Dir): Tree
    requires g.Node? && Child(g, d1).Node? && Child(Child(g, d1), d2).Node?
  {
    match (d1, d2)
    case (Left, Left) => RotR(RotR(g))
    case (Right, Right) => RotL(RotL(g))
    case (Left, Right) => RotR(g.(left := RotL(g.left)))
    case (Right, Left) => RotL(g.(right := RotR(g.right)))
  }

  /** Bottom-up splay of the node at path `p`: zig-zig / zig-zag steps at the
      grandparent while the node is at least two levels deep, then a final
      zig if it is a child of the root. */
  function Splay(t: Tree, p: Path): Tree
    requires IsNodePath(t, p)
    decreases |p|
  {
    if |p| == 0 then t
    else if |p| == 1 then SubOne(t, p); Zig(t, p[0])
    else
      var g := p[..|p| - 2];
      var d1, d2 := p[|p| - 2], p[|p| - 1];
      SplitPath(t, p);
      var t' := Replace(t, g, ZigStep(Sub(t, g), d1, d2));
      ReplaceSub(t, g, ZigStep(Sub(t, g), d1, d2));
      ZigStepFacts(Sub(t, g), d1, d2);
      Splay(t', g)
  }

  /** A node path of length two or more passes through the grandparent. */
  lemma SplitPath(t: Tree, p: Path)
    requires IsNodePath(t, p) && |p| >= 2
    ensures OnPath(t, p[..|p| - 2])
    ensures var g := Sub(t, p[..|p| - 2]);
      g.Node? && Child(g, p[|p| - 2]).Node? && Child(Child(g, p[|p| - 2]), p[|p| - 1]).Node?
    ensures Sub(t, p) == Child(Child(Sub(t, p[..|p| - 2]), p[|p| - 2]), p[|p| - 1])
  {
    var g, d1, d2 := p[..|p| - 2], p[|p| - 2], p[|p| - 1];
    assert p == g + [d1, d2];
    SubSplit(t, g, [d1, d2]);
    var x := Sub(t, g);
    assert [d1, d2][1..] == [d2];
    assert Sub(x, [d1, d2]) == Sub(Child(x, d1), [d2]) == Sub(Child(Child(x, d1), d2), []);
  }

  /** The converse of `SubAppend`: a path through `a + b` passes through `a`. */
  lemma {:induction false} SubSplit(t: Tree, a: Path, b: Path)
    requires OnPath(t, a + b)
    ensures OnPath(t, a) && OnPath(Sub(t, a), b) && Sub(t, a + b) == Sub(Sub(t, a), b)
  {
    if a != [] {
      assert (a + b)[0] == a[0] && (a + b)[1..] == a[1..] + b;
      SubSplit(Child(t, a[0]), a[1..], b);
    } else {
      assert a + b == b;
    }
  }

  /** A one-step node path reaches a child of the root. */
  lemma SubOne(t: Tree, p: Path)
    requires IsNodePath(t, p) && |p| == 1
    ensures t.Node? && Sub(t, p) == Child(t, p[0])
  {
    assert p[1..] == [];
  }

  // ---------------------------------------------------------------------------
  // What rotations and splay steps preserve

  /** A rotation keeps the in-order sequence and the set of nodes. */
  lemma RotLFacts(s: Tree)
    requires s.Node? && s.right.Node?
    ensures InOrder(RotL(s)) == InOrder(s)
    ensures Ids(RotL(s)) == Ids(s)
    ensures Unique(s) ==> Unique(RotL(s))
    ensures RotL(s).id == s.right.id
  {
    var t := s.right;
    if Unique(s) {
      assert Unique(t);
      assert Unique(Node(s.left, s.id, s.value, t.left));
    }
  }

  lemma RotRFacts(s: Tree)
    requires s.Node? && s.left.Node?
    ensures InOrder(RotR(s)) == InOrder(s)
    ensures Ids(RotR(s)) == Ids(s)
    ensures Unique(s) ==> Unique(RotR(s))
    ensures RotR(s).id == s.left.id
  {
    var t := s.left;
    if Unique(s) {
      assert Unique(t);
      assert Unique(Node(t.right, s.id, s.value, s.right));
    }
  }

  /** A splay step brings the splayed node to the top of the grandparent's
      subtree without changing its in-order sequence or its nodes. */
  lemma ZigStepFacts(g: Tree, d1: Dir, d2: Dir)
    requires g.Node? && Child(g, d1).Node? && Child(Child(g, d1), d2).Node?
    ensures ZigStep(g, d1, d2).Node?
    ensures ZigStep(g, d1, d2).id == Child(Child(g, d1), d2).id
    ensures InOrder(ZigStep(g, d1, d2)) == InOrder(g)
    ensures Ids(ZigStep(g, d1, d2)) == Ids(g)
    ensures Unique(g) ==> Unique(ZigStep(g, d1, d2))
  {
    match (d1, d2)
    case (Left, Left) => RotRFacts(g); RotRFacts(RotR(g));
    case (Right, Right) => RotLFacts(g); RotLFacts(RotL(g));
    case (Left, Right) => RotLFacts(g.left); RotRFacts(g.(left := RotL(g.left)));
    case (Right, Left) => RotRFacts(g.right); RotLFacts(g.(right := RotR(g.right)));
  }

  /** Splaying moves the accessed node to the root and leaves the in-order
      sequence (and therefore the node set and the BST order) unchanged. */
  lemma {:induction false} SplayFacts(t: Tree, p: Path)
    requires IsNodePath(t, p)
    ensures Splay(t, p).Node? && Splay(t, p).id == Sub(t, p).id
    ensures InOrder(Splay(t, p)) == InOrder(t)
    ensures Ids(Splay(t, p)) == Ids(t)
    ensures Unique(t) ==> Unique(Splay(t, p))
    decreases |p|
  {
    if |p| == 1 {
      SubOne(t, p);
      if p[0] == Left { RotRFacts(t); } else { RotLFacts(t); }
    } else if |p| >= 2 {
      var g := p[..|p| - 2];
      var d1, d2 := p[|p| - 2], p[|p| - 1];
      SplitPath(t, p);
      var s := ZigStep(Sub(t, g), d1, d2);
      var t' := Replace(t, g, s);
      ReplaceSub(t, g, s);
      ZigStepFacts(Sub(t, g), d1, d2);
      ReplaceInOrder(t, g, s);
      SubIds(t, g);
      if Unique(t) {
        ReplaceIds(t, g, s);
      } else {
        ReplaceIdsAny(t, g, s);
      }
      SplayFacts(t', g);
    }
  }

  /** Replacing a subtree by one with the same nodes keeps the node set,
      whether or not identities are unique. */
  lemma {:induction false} ReplaceIdsAny(t: Tree, p: Path, s: Tree)
    requires OnPath(t, p) && Ids(s) == Ids(Sub(t, p))
    ensures Ids(Replace(t, p, s)) == Ids(t)
  {
    if p != [] {
      ReplaceIdsAny(Child(t, p[0]), p[1..], s);
    }
  }
}
