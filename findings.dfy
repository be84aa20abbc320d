/**
 * The two-children branch of `Remove`, corrected, and the inputs on which
 * the branch as written goes wrong.
 */
module Findings {
  import opened Trees
  import opened Rotations
  import opened Search
  import opened Operations

  /** `t` with its rightmost node replaced by that node's left subtree. */
  function DeleteMax(t: Tree): (r: Tree)
    requires t.Node?
    ensures InOrder(t) == InOrder(r) + [Elem(Rightmost(t).id, Rightmost(t).value)]
  {
    if t.right == Leaf then t.left else Node(t.left, t.id, t.value, DeleteMax(t.right))
  }

  /** `Remove` with the two-children branch corrected: the rightmost node of
      the splayed root's left subtree is unlinked by handing its left subtree
      to its parent (which may be the root itself), and then takes the root's
      place. */
  function RemoveFixed(t: Tree, v: int): (Tree, Outcome)
  {
    match FindPath(t, v)
    case None => (t, NotFound)
    case Some(p) =>
      FindPathSound(t, v);
      var n := Sub(t, p);
      if n.left == Leaf then (Replace(t, p, n.right), Removed)
      else if n.right == Leaf then (Replace(t, p, n.left), Removed)
      else
        var t1 := Splay(t, p);
        // Not reachable on a tree with unique identities: `SplayKeepsSides`
        // keeps both children of the splayed root.
        if t1.Leaf? || t1.left.Leaf? then (t1, Panicked)
        else
          var m := Rightmost(t1.left);
          (Node(DeleteMax(t1.left), m.id, m.value, t1.right), Removed)
  }

  lemma {:induction false} DeleteMaxIds(t: Tree)
    requires t.Node? && Unique(t)
    ensures Unique(DeleteMax(t)) && Ids(DeleteMax(t)) == Ids(t) - {Rightmost(t).id}
    ensures Rightmost(t).id in Ids(t)
  {
    if t.right != Leaf {
      DeleteMaxIds(t.right);
    }
  }

  /** The corrected remove always completes on a valid tree, and removes
      exactly the entry the lookup finds: nothing else leaves the in-order
      sequence. */
  lemma RemoveFixedFacts(t: Tree, v: int)
    requires Ordered(t) && Unique(t)
    ensures RemoveFixed(t, v).1 != Panicked
    ensures RemoveFixed(t, v).1 == NotFound <==> !Contains(t, v)
    ensures RemoveFixed(t, v).1 == NotFound ==> RemoveFixed(t, v).0 == t
    ensures FindPath(t, v).Some? ==> IsNodePath(t, FindPath(t, v).value)
    ensures RemoveFixed(t, v).1 == Removed ==>
      var r := RemoveFixed(t, v).0;
      Ordered(r) && Unique(r) &&
      exists a, b :: InOrder(t) == a + [Elem(Sub(t, FindPath(t, v).value).id, v)] + b && InOrder(r) == a + b
  {
    FindPathComplete(t, v);
    if FindPath(t, v).Some? {
      var p := FindPath(t, v).value;
      FindPathSound(t, v);
      var n := Sub(t, p);
      if n.left == Leaf || n.right == Leaf {
        var a, b := SpliceChild(t, p);
      } else {
        SplayFacts(t, p);
        SplayKeepsSides(t, p);
        var t1 := Splay(t, p);
        var a, b := SpliceFixed(t1);
      }
    }
  }

  /** The corrected splice on the splayed tree removes exactly the root. */
  lemma SpliceFixed(t1: Tree) returns (a: seq<Elem>, b: seq<Elem>)
    requires Ordered(t1) && Unique(t1) && t1.Node? && t1.left.Node?
    ensures var m := Rightmost(t1.left);
      var r := Node(DeleteMax(t1.left), m.id, m.value, t1.right);
      Ordered(r) && Unique(r) && Ids(r) == Ids(t1) - {t1.id} &&
      InOrder(t1) == a + [Elem(t1.id, t1.value)] + b && InOrder(r) == a + b
  {
    var L, R := t1.left, t1.right;
    var m := Rightmost(L);
    var r := Node(DeleteMax(L), m.id, m.value, R);
    a, b := InOrder(L), InOrder(R);
    var me := Elem(m.id, m.value);
    assert InOrder(r) == InOrder(DeleteMax(L)) + [me] + b;
    assert InOrder(r) == a + b;
    SortedDrop(a, [Elem(t1.id, t1.value)], b);
    DeleteMaxIds(L);
  }

  /** Where the branch as written completes without losing anything, it
      agrees with the corrected one. */
  lemma RemoveAgrees(t: Tree, v: int)
    requires RemoveSpec(t, v).1 != Panicked && Lost(t, v) == []
    ensures RemoveSpec(t, v) == RemoveFixed(t, v)
  {
    if FindPath(t, v).Some? {
      var p := FindPath(t, v).value;
      FindPathSound(t, v);
      var n := Sub(t, p);
      if n.left != Leaf && n.right != Leaf {
        var t1 := Splay(t, p);
        CutMaxIsDeleteMax(t1.left);
      }
    }
  }

  lemma {:induction false} CutMaxIsDeleteMax(t: Tree)
    requires t.Node? && Rightmost(t).left == Leaf
    ensures CutMax(t) == DeleteMax(t)
  {
    if t.right != Leaf {
      CutMaxIsDeleteMax(t.right);
    }
  }

  // ---------------------------------------------------------------------------
  // Concrete inputs

  /** Values 1, 3, 2 inserted in that order (identities 0, 1, 2): 2 ends at
      the root with 1 and 3 as its children. */
  lemma PanicExample()
    ensures InsertSpec(InsertSpec(InsertSpec(Leaf, 0, 1), 1, 3), 2, 2) ==
            Node(Node(Leaf, 0, 1, Leaf), 2, 2, Node(Leaf, 1, 3, Leaf))
    ensures RemoveSpec(Node(Node(Leaf, 0, 1, Leaf), 2, 2, Node(Leaf, 1, 3, Leaf)), 2).1 == Panicked
    ensures RemoveFixed(Node(Node(Leaf, 0, 1, Leaf), 2, 2, Node(Leaf, 1, 3, Leaf)), 2) ==
            (Node(Leaf, 0, 1, Node(Leaf, 1, 3, Leaf)), Removed)
  {
  }

  /** Values 2, 3, 5, 1, 4 inserted in that order (identities 0 to 4). */
  const Loss1: Tree := Node(Leaf, 0, 2, Leaf)
  const Loss2: Tree := Node(Node(Leaf, 0, 2, Leaf), 1, 3, Leaf)
  const Loss3: Tree := Node(Node(Node(Leaf, 0, 2, Leaf), 1, 3, Leaf), 2, 5, Leaf)
  const Loss4: Tree := Node(Leaf, 3, 1, Node(Node(Leaf, 0, 2, Node(Leaf, 1, 3, Leaf)), 2, 5, Leaf))
  const Loss5: Tree := Node(Node(Leaf, 3, 1, Node(Node(Leaf, 0, 2, Leaf), 1, 3, Leaf)), 4, 4, Node(Leaf, 2, 5, Leaf))

  /** Inserting 2 as node 0. */
  lemma LossInsert1()
    ensures InsertSpec(Leaf, 0, 2) == Loss1
  {
  }

  /** Inserting 3 as node 1. */
  lemma LossInsert2()
    ensures InsertSpec(Loss1, 1, 3) == Loss2
  {
    assert DescentPath(Loss1, 3) == [Right];
    assert Attach(Loss1, 1, 3) == Node(Leaf, 0, 2, Node(Leaf, 1, 3, Leaf));
  }

  /** Inserting 5 as node 2. */
  lemma LossInsert3()
    ensures InsertSpec(Loss2, 2, 5) == Loss3
  {
    assert DescentPath(Loss2, 5) == [Right];
    assert Attach(Loss2, 2, 5) == Node(Node(Leaf, 0, 2, Leaf), 1, 3, Node(Leaf, 2, 5, Leaf));
  }

  /** Inserting 1 as node 3. */
  lemma LossInsert4()
    ensures InsertSpec(Loss3, 3, 1) == Loss4
  {
    assert DescentPath(Loss3, 1) == [Left, Left, Left];
    assert Attach(Loss3, 3, 1) == Node(Node(Node(Node(Leaf, 3, 1, Leaf), 0, 2, Leaf), 1, 3, Leaf), 2, 5, Leaf);
    assert [Left, Left, Left][..1] == [Left];
    assert Splay(Node(Node(Node(Node(Leaf, 3, 1, Leaf), 0, 2, Leaf), 1, 3, Leaf), 2, 5, Leaf), [Left, Left, Left]) ==
           Splay(Node(Node(Leaf, 3, 1, Node(Leaf, 0, 2, Node(Leaf, 1, 3, Leaf))), 2, 5, Leaf), [Left]);
  }

  /** Inserting 4 as node 4. */
  lemma LossInsert5()
    ensures InsertSpec(Loss4, 4, 4) == Loss5
  {
    assert DescentPath(Loss4, 4) == [Right, Left, Right, Right];
    assert Attach(Loss4, 4, 4) == Node(Leaf, 3, 1, Node(Node(Leaf, 0, 2, Node(Leaf, 1, 3, Node(Leaf, 4, 4, Leaf))), 2, 5, Leaf));
    assert [Right, Left, Right, Right][..2] == [Right, Left];
    assert Splay(Node(Leaf, 3, 1, Node(Node(Leaf, 0, 2, Node(Leaf, 1, 3, Node(Leaf, 4, 4, Leaf))), 2, 5, Leaf)), [Right, Left, Right, Right]) ==
           Splay(Node(Leaf, 3, 1, Node(Node(Node(Node(Leaf, 0, 2, Leaf), 1, 3, Leaf), 4, 4, Leaf), 2, 5, Leaf)), [Right, Left]);
    assert [Right, Left][..0] == [];
    assert Splay(Node(Leaf, 3, 1, Node(Node(Node(Node(Leaf, 0, 2, Leaf), 1, 3, Leaf), 4, 4, Leaf), 2, 5, Leaf)), [Right, Left]) ==
           Splay(Node(Node(Leaf, 3, 1, Node(Node(Leaf, 0, 2, Leaf), 1, 3, Leaf)), 4, 4, Node(Leaf, 2, 5, Leaf)), []);
  }

  /** The five insertions together build `Loss5`. */
  lemma LossBuild()
    ensures InsertSpec(InsertSpec(InsertSpec(InsertSpec(InsertSpec(Leaf, 0, 2), 1, 3), 2, 5), 3, 1), 4, 4) == Loss5
  {
    LossInsert1();
    LossInsert2();
    LossInsert3();
    LossInsert4();
    LossInsert5();
  }

  /** Removing 4 from that tree also drops 2, which hung below the node
      that replaces 4; the corrected remove keeps it. */
  lemma LossExample()
    ensures RemoveSpec(Loss5, 4) == (Node(Node(Leaf, 3, 1, Leaf), 1, 3, Node(Leaf, 2, 5, Leaf)), Removed)
    ensures Lost(Loss5, 4) == [Elem(0, 2)]
    ensures Contains(Loss5, 2) && !Contains(RemoveSpec(Loss5, 4).0, 2)
    ensures RemoveFixed(Loss5, 4) ==
            (Node(Node(Leaf, 3, 1, Node(Leaf, 0, 2, Leaf)), 1, 3, Node(Leaf, 2, 5, Leaf)), Removed)
  {
    assert FindPath(Loss5, 4) == Some([]);
    assert Splay(Loss5, []) == Loss5;
    assert Elem(0, 2) in InOrder(Loss5);
  }
}
