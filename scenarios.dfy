/**
 * The sequence of operations of the repository's own test of the tree,
 * replayed on the functional model of the tree.  Values "A" to "G" are 1 to 7;
 * node identities are handed out in insertion order.  Each step states the
 * tree the operation leaves behind and the (value, depth) listing an
 * in-order traversal reports for it.
 */
module Scenarios {
  import opened Trees
  import opened Rotations
  import opened Search
  import opened Operations
  import opened Traversal

  const S01: Tree := Node(Leaf, 0, 1, Leaf)
  const S02: Tree := Node(Node(Leaf, 0, 1, Leaf), 1, 2, Leaf)
  const S03: Tree := Node(Node(Node(Leaf, 0, 1, Leaf), 1, 2, Leaf), 2, 3, Leaf)
  const S04: Tree := Node(Node(Node(Node(Leaf, 0, 1, Leaf), 1, 2, Leaf), 2, 3, Leaf), 3, 4, Leaf)
  const S05: Tree := Node(Node(Node(Node(Node(Leaf, 0, 1, Leaf), 1, 2, Leaf), 2, 3, Leaf), 3, 4, Leaf), 4, 5, Leaf)
  const S06: Tree := Node(Leaf, 0, 1, Node(Node(Leaf, 1, 2, Node(Leaf, 2, 3, Leaf)), 3, 4, Node(Leaf, 4, 5, Leaf)))
  const S07: Tree := Node(Node(Leaf, 0, 1, Node(Leaf, 1, 2, Leaf)), 2, 3, Node(Leaf, 3, 4, Node(Leaf, 4, 5, Leaf)))
  const S08: Tree := Node(Node(Node(Leaf, 0, 1, Node(Leaf, 1, 2, Leaf)), 2, 3, Node(Node(Leaf, 3, 4, Leaf), 4, 5, Leaf)), 5, 6, Leaf)
  const S09: Tree := Node(Node(Node(Node(Leaf, 0, 1, Node(Leaf, 1, 2, Leaf)), 2, 3, Node(Node(Leaf, 3, 4, Leaf), 4, 5, Leaf)), 5, 6, Leaf), 6, 7, Leaf)
  const S10: Tree := Node(Node(Node(Leaf, 0, 1, Node(Leaf, 1, 2, Leaf)), 2, 3, Leaf), 3, 4, Node(Node(Leaf, 4, 5, Leaf), 5, 6, Node(Leaf, 6, 7, Leaf)))
  const S11: Tree := Node(Node(Leaf, 0, 1, Leaf), 1, 2, Node(Node(Leaf, 2, 3, Leaf), 3, 4, Node(Node(Leaf, 4, 5, Leaf), 5, 6, Node(Leaf, 6, 7, Leaf))))
  const S12: Tree := Node(Node(Node(Leaf, 0, 1, Leaf), 1, 2, Leaf), 2, 3, Node(Node(Leaf, 4, 5, Leaf), 5, 6, Node(Leaf, 6, 7, Leaf)))
  const S13: Tree := Node(Node(Leaf, 0, 1, Leaf), 2, 3, Node(Node(Leaf, 4, 5, Leaf), 5, 6, Node(Leaf, 6, 7, Leaf)))
  const S14: Tree := Node(Node(Leaf, 0, 1, Leaf), 2, 3, Node(Leaf, 5, 6, Node(Leaf, 6, 7, Leaf)))
  const S15: Tree := Node(Node(Leaf, 0, 1, Leaf), 2, 3, Node(Leaf, 6, 7, Leaf))
  const S16: Tree := Node(Node(Leaf, 0, 1, Leaf), 7, 2, Node(Leaf, 2, 3, Node(Leaf, 6, 7, Leaf)))
  const S17: Tree := Node(Leaf, 7, 2, Node(Leaf, 2, 3, Node(Leaf, 6, 7, Leaf)))
  const S18: Tree := Node(Leaf, 8, 1, Node(Leaf, 7, 2, Node(Leaf, 2, 3, Node(Leaf, 6, 7, Leaf))))
  const S19: Tree := Node(Node(Leaf, 8, 1, Node(Node(Leaf, 7, 2, Leaf), 2, 3, Leaf)), 6, 7, Leaf)
  const S20: Tree := Node(Leaf, 8, 1, Node(Node(Leaf, 7, 2, Leaf), 2, 3, Leaf))
  const S21: Tree := Node(Leaf, 8, 1, Node(Node(Leaf, 7, 2, Leaf), 2, 3, Leaf))
  const S22: Tree := Node(Leaf, 8, 1, Node(Node(Leaf, 7, 2, Leaf), 2, 3, Leaf))
  const S23: Tree := Node(Leaf, 8, 1, Node(Leaf, 7, 2, Leaf))

  /** Step 1: Insert(A). */
  lemma Step01()
    ensures InsertSpec(Leaf, 0, 1) == S01
    ensures Listing(S01, 0) == [(1, 0)]
  {
  }

  /** Step 2: Insert(B). */
  lemma Step02()
    ensures InsertSpec(S01, 1, 2) == S02
    ensures Listing(S02, 0) == [(1, 1), (2, 0)]
  {
    assert DescentPath(S01, 2) == [Right];
    assert Attach(S01, 1, 2) == Node(Leaf, 0, 1, Node(Leaf, 1, 2, Leaf));
  }

  /** Step 3: Insert(C). */
  lemma Step03()
    ensures InsertSpec(S02, 2, 3) == S03
    ensures Listing(S03, 0) == [(1, 2), (2, 1), (3, 0)]
  {
    assert DescentPath(S02, 3) == [Right];
    assert Attach(S02, 2, 3) == Node(Node(Leaf, 0, 1, Leaf), 1, 2, Node(Leaf, 2, 3, Leaf));
  }

  /** Step 4: Insert(D). */
  lemma Step04()
    ensures InsertSpec(S03, 3, 4) == S04
    ensures Listing(S04, 0) == [(1, 3), (2, 2), (3, 1), (4, 0)]
  {
    assert DescentPath(S03, 4) == [Right];
    assert Attach(S03, 3, 4) == Node(Node(Node(Leaf, 0, 1, Leaf), 1, 2, Leaf), 2, 3, Node(Leaf, 3, 4, Leaf));
  }

  /** Step 5: Insert(E). */
  lemma Step05()
    ensures InsertSpec(S04, 4, 5) == S05
    ensures Listing(S05, 0) == [(1, 4), (2, 3), (3, 2), (4, 1), (5, 0)]
  {
    assert DescentPath(S04, 5) == [Right];
    assert Attach(S04, 4, 5) == Node(Node(Node(Node(Leaf, 0, 1, Leaf), 1, 2, Leaf), 2, 3, Leaf), 3, 4, Node(Leaf, 4, 5, Leaf));
  }

  /** Step 6: Has(A). */
  lemma Step06()
    ensures FindPath(S05, 1) == Some([Left, Left, Left, Left])
    ensures IsNodePath(S05, [Left, Left, Left, Left]) && Splay(S05, [Left, Left, Left, Left]) == S06
    ensures Listing(S06, 0) == [(1, 0), (2, 2), (3, 3), (4, 1), (5, 2)]
  {
    assert FindPath(Node(Leaf, 0, 1, Leaf), 1) == Some([]);
    assert [Left] == [Left] + [];
    assert FindPath(Node(Node(Leaf, 0, 1, Leaf), 1, 2, Leaf), 1) == Some([Left]);
    assert [Left, Left] == [Left] + [Left];
    assert FindPath(Node(Node(Node(Leaf, 0, 1, Leaf), 1, 2, Leaf), 2, 3, Leaf), 1) == Some([Left, Left]);
    assert [Left, Left, Left] == [Left] + [Left, Left];
    assert FindPath(Node(Node(Node(Node(Leaf, 0, 1, Leaf), 1, 2, Leaf), 2, 3, Leaf), 3, 4, Leaf), 1) == Some([Left, Left, Left]);
    assert [Left, Left, Left, Left] == [Left] + [Left, Left, Left];
    assert FindPath(Node(Node(Node(Node(Node(Leaf, 0, 1, Leaf), 1, 2, Leaf), 2, 3, Leaf), 3, 4, Leaf), 4, 5, Leaf), 1) == Some([Left, Left, Left, Left]);
    assert [Left, Left, Left, Left][..2] == [Left, Left];
    assert Splay(Node(Node(Node(Node(Node(Leaf, 0, 1, Leaf), 1, 2, Leaf), 2, 3, Leaf), 3, 4, Leaf), 4, 5, Leaf), [Left, Left, Left, Left]) ==
           Splay(Node(Node(Node(Leaf, 0, 1, Node(Leaf, 1, 2, Node(Leaf, 2, 3, Leaf))), 3, 4, Leaf), 4, 5, Leaf), [Left, Left]);
    assert [Left, Left][..0] == [];
    assert Splay(Node(Node(Node(Leaf, 0, 1, Node(Leaf, 1, 2, Node(Leaf, 2, 3, Leaf))), 3, 4, Leaf), 4, 5, Leaf), [Left, Left]) ==
           Splay(Node(Leaf, 0, 1, Node(Node(Leaf, 1, 2, Node(Leaf, 2, 3, Leaf)), 3, 4, Node(Leaf, 4, 5, Leaf))), []);
  }

  /** Step 7: Has(C). */
  lemma Step07()
    ensures FindPath(S06, 3) == Some([Right, Left, Right])
    ensures IsNodePath(S06, [Right, Left, Right]) && Splay(S06, [Right, Left, Right]) == S07
    ensures Listing(S07, 0) == [(1, 1), (2, 2), (3, 0), (4, 1), (5, 2)]
  {
    assert FindPath(Node(Leaf, 2, 3, Leaf), 3) == Some([]);
    assert [Right] == [Right] + [];
    assert FindPath(Node(Leaf, 1, 2, Node(Leaf, 2, 3, Leaf)), 3) == Some([Right]);
    assert [Left, Right] == [Left] + [Right];
    assert FindPath(Node(Node(Leaf, 1, 2, Node(Leaf, 2, 3, Leaf)), 3, 4, Node(Leaf, 4, 5, Leaf)), 3) == Some([Left, Right]);
    assert [Right, Left, Right] == [Right] + [Left, Right];
    assert FindPath(Node(Leaf, 0, 1, Node(Node(Leaf, 1, 2, Node(Leaf, 2, 3, Leaf)), 3, 4, Node(Leaf, 4, 5, Leaf))), 3) == Some([Right, Left, Right]);
    assert [Right, Left, Right][..1] == [Right];
    assert Splay(Node(Leaf, 0, 1, Node(Node(Leaf, 1, 2, Node(Leaf, 2, 3, Leaf)), 3, 4, Node(Leaf, 4, 5, Leaf))), [Right, Left, Right]) ==
           Splay(Node(Leaf, 0, 1, Node(Node(Leaf, 1, 2, Leaf), 2, 3, Node(Leaf, 3, 4, Node(Leaf, 4, 5, Leaf)))), [Right]);
  }

  /** Step 8: Insert(F). */
  lemma Step08()
    ensures InsertSpec(S07, 5, 6) == S08
    ensures Listing(S08, 0) == [(1, 2), (2, 3), (3, 1), (4, 3), (5, 2), (6, 0)]
  {
    assert DescentPath(S07, 6) == [Right, Right, Right];
    assert Attach(S07, 5, 6) == Node(Node(Leaf, 0, 1, Node(Leaf, 1, 2, Leaf)), 2, 3, Node(Leaf, 3, 4, Node(Leaf, 4, 5, Node(Leaf, 5, 6, Leaf))));
    assert [Right, Right, Right][..1] == [Right];
    assert Splay(Node(Node(Leaf, 0, 1, Node(Leaf, 1, 2, Leaf)), 2, 3, Node(Leaf, 3, 4, Node(Leaf, 4, 5, Node(Leaf, 5, 6, Leaf)))), [Right, Right, Right]) ==
           Splay(Node(Node(Leaf, 0, 1, Node(Leaf, 1, 2, Leaf)), 2, 3, Node(Node(Node(Leaf, 3, 4, Leaf), 4, 5, Leaf), 5, 6, Leaf)), [Right]);
  }

  /** Step 9: Insert(G). */
  lemma Step09()
    ensures InsertSpec(S08, 6, 7) == S09
    ensures Listing(S09, 0) == [(1, 3), (2, 4), (3, 2), (4, 4), (5, 3), (6, 1), (7, 0)]
  {
    assert DescentPath(S08, 7) == [Right];
    assert Attach(S08, 6, 7) == Node(Node(Node(Leaf, 0, 1, Node(Leaf, 1, 2, Leaf)), 2, 3, Node(Node(Leaf, 3, 4, Leaf), 4, 5, Leaf)), 5, 6, Node(Leaf, 6, 7, Leaf));
  }

  /** Step 10: Has(D). */
  lemma Step10()
    ensures FindPath(S09, 4) == Some([Left, Left, Right, Left])
    ensures IsNodePath(S09, [Left, Left, Right, Left]) && Splay(S09, [Left, Left, Right, Left]) == S10
    ensures Listing(S10, 0) == [(1, 2), (2, 3), (3, 1), (4, 0), (5, 2), (6, 1), (7, 2)]
  {
    assert FindPath(Node(Leaf, 3, 4, Leaf), 4) == Some([]);
    assert [Left] == [Left] + [];
    assert FindPath(Node(Node(Leaf, 3, 4, Leaf), 4, 5, Leaf), 4) == Some([Left]);
    assert [Right, Left] == [Right] + [Left];
    assert FindPath(Node(Node(Leaf, 0, 1, Node(Leaf, 1, 2, Leaf)), 2, 3, Node(Node(Leaf, 3, 4, Leaf), 4, 5, Leaf)), 4) == Some([Right, Left]);
    assert [Left, Right, Left] == [Left] + [Right, Left];
    assert FindPath(Node(Node(Node(Leaf, 0, 1, Node(Leaf, 1, 2, Leaf)), 2, 3, Node(Node(Leaf, 3, 4, Leaf), 4, 5, Leaf)), 5, 6, Leaf), 4) == Some([Left, Right, Left]);
    assert [Left, Left, Right, Left] == [Left] + [Left, Right, Left];
    assert FindPath(Node(Node(Node(Node(Leaf, 0, 1, Node(Leaf, 1, 2, Leaf)), 2, 3, Node(Node(Leaf, 3, 4, Leaf), 4, 5, Leaf)), 5, 6, Leaf), 6, 7, Leaf), 4) == Some([Left, Left, Right, Left]);
    assert [Left, Left, Right, Left][..2] == [Left, Left];
    assert Splay(Node(Node(Node(Node(Leaf, 0, 1, Node(Leaf, 1, 2, Leaf)), 2, 3, Node(Node(Leaf, 3, 4, Leaf), 4, 5, Leaf)), 5, 6, Leaf), 6, 7, Leaf), [Left, Left, Right, Left]) ==
           Splay(Node(Node(Node(Node(Node(Leaf, 0, 1, Node(Leaf, 1, 2, Leaf)), 2, 3, Leaf), 3, 4, Node(Leaf, 4, 5, Leaf)), 5, 6, Leaf), 6, 7, Leaf), [Left, Left]);
    assert [Left, Left][..0] == [];
    assert Splay(Node(Node(Node(Node(Node(Leaf, 0, 1, Node(Leaf, 1, 2, Leaf)), 2, 3, Leaf), 3, 4, Node(Leaf, 4, 5, Leaf)), 5, 6, Leaf), 6, 7, Leaf), [Left, Left]) ==
           Splay(Node(Node(Node(Leaf, 0, 1, Node(Leaf, 1, 2, Leaf)), 2, 3, Leaf), 3, 4, Node(Node(Leaf, 4, 5, Leaf), 5, 6, Node(Leaf, 6, 7, Leaf))), []);
  }

  /** Step 11: Has(B). */
  lemma Step11()
    ensures FindPath(S10, 2) == Some([Left, Left, Right])
    ensures IsNodePath(S10, [Left, Left, Right]) && Splay(S10, [Left, Left, Right]) == S11
    ensures Listing(S11, 0) == [(1, 1), (2, 0), (3, 2), (4, 1), (5, 3), (6, 2), (7, 3)]
  {
    assert FindPath(Node(Leaf, 1, 2, Leaf), 2) == Some([]);
    assert [Right] == [Right] + [];
    assert FindPath(Node(Leaf, 0, 1, Node(Leaf, 1, 2, Leaf)), 2) == Some([Right]);
    assert [Left, Right] == [Left] + [Right];
    assert FindPath(Node(Node(Leaf, 0, 1, Node(Leaf, 1, 2, Leaf)), 2, 3, Leaf), 2) == Some([Left, Right]);
    assert [Left, Left, Right] == [Left] + [Left, Right];
    assert FindPath(Node(Node(Node(Leaf, 0, 1, Node(Leaf, 1, 2, Leaf)), 2, 3, Leaf), 3, 4, Node(Node(Leaf, 4, 5, Leaf), 5, 6, Node(Leaf, 6, 7, Leaf))), 2) == Some([Left, Left, Right]);
    assert [Left, Left, Right][..1] == [Left];
    assert Splay(Node(Node(Node(Leaf, 0, 1, Node(Leaf, 1, 2, Leaf)), 2, 3, Leaf), 3, 4, Node(Node(Leaf, 4, 5, Leaf), 5, 6, Node(Leaf, 6, 7, Leaf))), [Left, Left, Right]) ==
           Splay(Node(Node(Node(Leaf, 0, 1, Leaf), 1, 2, Node(Leaf, 2, 3, Leaf)), 3, 4, Node(Node(Leaf, 4, 5, Leaf), 5, 6, Node(Leaf, 6, 7, Leaf))), [Left]);
  }

  /** Step 12: Remove(D). */
  lemma Step12()
    ensures RemoveSpec(S11, 4) == (S12, Removed)
    ensures Listing(S12, 0) == [(1, 2), (2, 1), (3, 0), (5, 2), (6, 1), (7, 2)]
  {
    assert FindPath(Node(Node(Leaf, 2, 3, Leaf), 3, 4, Node(Node(Leaf, 4, 5, Leaf), 5, 6, Node(Leaf, 6, 7, Leaf))), 4) == Some([]);
    assert [Right] == [Right] + [];
    assert FindPath(S11, 4) == Some([Right]);
    assert Splay(S11, [Right]) == Node(Node(Node(Leaf, 0, 1, Leaf), 1, 2, Node(Leaf, 2, 3, Leaf)), 3, 4, Node(Node(Leaf, 4, 5, Leaf), 5, 6, Node(Leaf, 6, 7, Leaf)));
  }

  /** Step 13: Remove(B). */
  lemma Step13()
    ensures RemoveSpec(S12, 2) == (S13, Removed)
    ensures Listing(S13, 0) == [(1, 1), (3, 0), (5, 2), (6, 1), (7, 2)]
  {
    assert FindPath(Node(Node(Leaf, 0, 1, Leaf), 1, 2, Leaf), 2) == Some([]);
    assert [Left] == [Left] + [];
    assert FindPath(S12, 2) == Some([Left]);
  }

  /** Step 14: Remove(E). */
  lemma Step14()
    ensures RemoveSpec(S13, 5) == (S14, Removed)
    ensures Listing(S14, 0) == [(1, 1), (3, 0), (6, 1), (7, 2)]
  {
    assert FindPath(Node(Leaf, 4, 5, Leaf), 5) == Some([]);
    assert [Left] == [Left] + [];
    assert FindPath(Node(Node(Leaf, 4, 5, Leaf), 5, 6, Node(Leaf, 6, 7, Leaf)), 5) == Some([Left]);
    assert [Right, Left] == [Right] + [Left];
    assert FindPath(S13, 5) == Some([Right, Left]);
  }

  /** Step 15: Remove(F). */
  lemma Step15()
    ensures RemoveSpec(S14, 6) == (S15, Removed)
    ensures Listing(S15, 0) == [(1, 1), (3, 0), (7, 1)]
  {
    assert FindPath(Node(Leaf, 5, 6, Node(Leaf, 6, 7, Leaf)), 6) == Some([]);
    assert [Right] == [Right] + [];
    assert FindPath(S14, 6) == Some([Right]);
  }

  /** Step 16: Insert(B). */
  lemma Step16()
    ensures InsertSpec(S15, 7, 2) == S16
    ensures Listing(S16, 0) == [(1, 1), (2, 0), (3, 1), (7, 2)]
  {
    assert DescentPath(S15, 2) == [Left, Right];
    assert Attach(S15, 7, 2) == Node(Node(Leaf, 0, 1, Node(Leaf, 7, 2, Leaf)), 2, 3, Node(Leaf, 6, 7, Leaf));
    assert [Left, Right][..0] == [];
    assert Splay(Node(Node(Leaf, 0, 1, Node(Leaf, 7, 2, Leaf)), 2, 3, Node(Leaf, 6, 7, Leaf)), [Left, Right]) ==
           Splay(Node(Node(Leaf, 0, 1, Leaf), 7, 2, Node(Leaf, 2, 3, Node(Leaf, 6, 7, Leaf))), []);
  }

  /** Step 17: Remove(A). */
  lemma Step17()
    ensures RemoveSpec(S16, 1) == (S17, Removed)
    ensures Listing(S17, 0) == [(2, 0), (3, 1), (7, 2)]
  {
    assert FindPath(Node(Leaf, 0, 1, Leaf), 1) == Some([]);
    assert [Left] == [Left] + [];
    assert FindPath(S16, 1) == Some([Left]);
  }

  /** Step 18: Insert(A). */
  lemma Step18()
    ensures InsertSpec(S17, 8, 1) == S18
    ensures Listing(S18, 0) == [(1, 0), (2, 1), (3, 2), (7, 3)]
  {
    assert DescentPath(S17, 1) == [Left];
    assert Attach(S17, 8, 1) == Node(Node(Leaf, 8, 1, Leaf), 7, 2, Node(Leaf, 2, 3, Node(Leaf, 6, 7, Leaf)));
  }

  /** Step 19: Has(G). */
  lemma Step19()
    ensures FindPath(S18, 7) == Some([Right, Right, Right])
    ensures IsNodePath(S18, [Right, Right, Right]) && Splay(S18, [Right, Right, Right]) == S19
    ensures Listing(S19, 0) == [(1, 1), (2, 3), (3, 2), (7, 0)]
  {
    assert FindPath(Node(Leaf, 6, 7, Leaf), 7) == Some([]);
    assert [Right] == [Right] + [];
    assert FindPath(Node(Leaf, 2, 3, Node(Leaf, 6, 7, Leaf)), 7) == Some([Right]);
    assert [Right, Right] == [Right] + [Right];
    assert FindPath(Node(Leaf, 7, 2, Node(Leaf, 2, 3, Node(Leaf, 6, 7, Leaf))), 7) == Some([Right, Right]);
    assert [Right, Right, Right] == [Right] + [Right, Right];
    assert FindPath(Node(Leaf, 8, 1, Node(Leaf, 7, 2, Node(Leaf, 2, 3, Node(Leaf, 6, 7, Leaf)))), 7) == Some([Right, Right, Right]);
    assert [Right, Right, Right][..1] == [Right];
    assert Splay(Node(Leaf, 8, 1, Node(Leaf, 7, 2, Node(Leaf, 2, 3, Node(Leaf, 6, 7, Leaf)))), [Right, Right, Right]) ==
           Splay(Node(Leaf, 8, 1, Node(Node(Node(Leaf, 7, 2, Leaf), 2, 3, Leaf), 6, 7, Leaf)), [Right]);
  }

  /** Step 20: Remove(G). */
  lemma Step20()
    ensures RemoveSpec(S19, 7) == (S20, Removed)
    ensures Listing(S20, 0) == [(1, 0), (2, 2), (3, 1)]
  {
    assert FindPath(S19, 7) == Some([]);
  }

  /** Step 21: Has(G). */
  lemma Step21()
    ensures FindPath(S20, 7) == None && !Contains(S20, 7)
    ensures Listing(S21, 0) == [(1, 0), (2, 2), (3, 1)]
  {
    FindPathComplete(S20, 7);
  }

  /** Step 22: Remove(G). */
  lemma Step22()
    ensures RemoveSpec(S21, 7) == (S21, NotFound)
    ensures Listing(S22, 0) == [(1, 0), (2, 2), (3, 1)]
  {
  }

  /** Step 23: Remove(C). */
  lemma Step23()
    ensures RemoveSpec(S22, 3) == (S23, Removed)
    ensures Listing(S23, 0) == [(1, 0), (2, 1)]
  {
    assert FindPath(Node(Node(Leaf, 7, 2, Leaf), 2, 3, Leaf), 3) == Some([]);
    assert [Right] == [Right] + [];
    assert FindPath(S22, 3) == Some([Right]);
  }

}
